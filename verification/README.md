# Maze generation and step-wise path search

A model of the non-graphical core of the maze solver `MAZEEE.py`:

- the grid of cells and its bounds-checked addressing;
- maze carving by randomized depth-first backtracking;
- path reconstruction from a predecessor map;
- the four step-wise searches (depth-first, breadth-first, Dijkstra and A*).

Each search is a Python generator that yields `visit`, `found` and `notfound` events. Each one is modelled as a state record plus a `Next` function. `Next` runs the generator up to its next event and returns that event with the suspended state. The random choices are parameters, so every sequence of draws the program can make is covered.

## Modules

| module | file | contents |
|---|---|---|
| `Wrappers` | wrappers.dfy | `Option`, standing for Python's `None` results |
| `Grid` | grid.dfy | `Cell` and `Maze`; `index`, `get`, `neighbors_with_walls` and `remove_walls`; a fresh grid |
| `Graph` | graph.dfy | walkable neighbours (`cell_neighbors_walkable`); walks, reachability, open passages |
| `Generator` | generator.dfy | `generate_recursive_backtracker`, and the proof that it carves a perfect maze |
| `Paths` | paths.dfy | `reconstruct_path`; the predecessor-tree invariant; the exhaustion argument behind `notfound` |
| `Search` | search.dfy | the events and generator phases shared by the searches, and how entries added from a neighbour list line up with its positions |
| `Heap` | heap.dfy | `heapq.heappop` on a sequence of `(key, cell, parent)` entries |
| `Heuristic` | heuristic.dfy | `manhattan` |
| `Dfs` | dfs.dfy | `random.shuffle` and `DFS_generator` |
| `Bfs` | bfs.dfy | `BFS_generator` |
| `Dijkstra` | dijkstra.dfy | `dijkstra_generator` |
| `AStar` | astar.dfy | `a_star_generator` and the parts of its invariant |
| `AStarTheorems` | astar_theorems.dfy | what the A* generator guarantees, step by step |

## How the searches are modelled

- **State.** The generator's local variables between two events form a record. It holds the start, the goal, the frontier (stack, queue or heap), the visited or closed set, the predecessor map and a phase.
- **Phase.** `Ready` is the head of the main loop. `Paused(x)` means "just reported the visit of `x`". `Done` means the generator has returned. A further `next()` then raises `StopIteration`, and the model reports `Stop`.
- **One step.** `Next` on `Ready` pops until it finds an unsettled cell, or reports `NotFound` when the frontier is empty. `Next` on `Paused(x)` first reports `Found` if `x` is the goal. Otherwise it expands `x` and pops again.
- **Invariant.** Each search keeps an invariant. `…StartInv` proves the generator's initial state satisfies it, so the theorems that assume it apply to every run. `…NextInv` proves it survives every step. The invariant says:
  - the predecessor map is a tree of open passages rooted at the start;
  - every frontier entry came from a settled cell it is walkable from;
  - every open neighbour of an expanded cell is settled or on the frontier;
  - the goal was never expanded;
  - for BFS, the visited cells fall into layers by distance from the start. The queue holds at most two consecutive layers, nearer ones in front, and every queued cell is one step past its parent.
- **What follows from the invariant.**
  - A `Found` path is a walk from the start to the goal.
  - `NotFound` means the goal is unreachable.
  - A predecessor, once written, never changes. For A* this holds for closed cells only.
  - For Dijkstra and A*, a settled cell's recorded length is the length of a shortest walk.
  - For BFS, a settled cell's reconstructed path is a shortest walk, so a `Found` path is a shortest route.

## Model

| member | source | states |
|---|---|---|
| Grid.NewMaze | MAZEEE.py:39-51 | a fresh `cols` by `rows` maze lists its cells row by row, each cell at the index its coordinates address, all four walls closed, not visited, with an empty stack |
| Grid.Index | MAZEEE.py:53-56 | there is no index exactly when a coordinate lies outside the grid; otherwise the index is `r * cols + c` and lies below `cols * rows` |
| Grid.IndexAddressesCell | MAZEEE.py:53-60 | in a well-formed maze the cell stored at the index of `(c, r)` has coordinates `(c, r)` |
| Grid.IndexOfCell | MAZEEE.py:53-56 | every cell's own coordinates address that cell |
| Grid.Get | MAZEEE.py:58-60 | a cell is returned exactly when the coordinates are inside the grid; it is the grid's cell at their row-major index, and it has those coordinates |
| Grid.NeighborsWithWalls | MAZEEE.py:62-69 | the result holds exactly the unvisited in-grid neighbours, each with the direction that reaches it, in up/right/down/left order, at most four |
| Grid.NeighborOpposite | MAZEEE.py:64 | stepping to a neighbour and back in the opposite direction returns to the cell |
| Grid.DirectionTo | MAZEEE.py:72-85 | the coordinate difference names the one direction leading from one cell to the other, or no direction when they are not adjacent |
| Grid.RemoveWalls | MAZEEE.py:71-85 | for adjacent cells exactly the two facing walls open and nothing else changes; walls never close; cells other than the two are untouched |
| Graph.Walkable | MAZEEE.py:119-127 | the yielded indices are exactly the cells reachable through an open wall of the cell, in direction order, at most four |
| Graph.WalkableSymmetric | MAZEEE.py:119-127 | when wall flags agree on shared sides, `j` is walkable from `i` exactly when `i` is walkable from `j` |
| Generator.ResetCells | MAZEEE.py:88-90 | every cell ends with four closed walls and unvisited; coordinates are kept |
| Generator.CarveInvInit | MAZEEE.py:91-93 | marking cell 0 visited and stacking it starts a carving tree of one cell |
| Generator.CarveAdvance | MAZEEE.py:95-101 | moving to an unvisited neighbour marks it, opens exactly the wall pair between the two cells and grows the tree by one link |
| Generator.CarveBacktrack | MAZEEE.py:102-103 | popping a cell with no unvisited neighbour keeps the carving invariant |
| Generator.CarveTo | MAZEEE.py:97-101 | the advance branch keeps the carving invariant, keeps the layout, pushes the new cell, appends it to the carving order and removes it from the unvisited cells |
| Generator.CarveOnce | MAZEEE.py:94-105 | one loop iteration keeps the invariant and shrinks the unvisited cells or the stack |
| Generator.AllVisited | MAZEEE.py:94-103 | once the stack is empty every cell has been visited |
| Generator.TreeIsPerfect | MAZEEE.py:87-107 | walls open exactly along the tree links give a connected maze with symmetric walls and one passage fewer than cells |
| Generator.GenerateRecursiveBacktracker | MAZEEE.py:87-107 | for every sequence of random choices: the layout is kept, the stack ends empty, no cell stays visited, each cell is carved exactly once starting from cell 0, and the maze is perfect |
| Paths.ReconstructPath | MAZEEE.py:110-117 | the path is empty exactly when the end has no predecessor; otherwise it ends at the end cell, holds distinct cells that all have predecessors, and each cell's predecessor is the one before it |
| Paths.ReconstructPathEndsAtRoot | MAZEEE.py:113-116 | on a map without cycles the first cell of the path links to a cell without a predecessor |
| Paths.FoundPathIsWalk | MAZEEE.py:110-117 | on a predecessor tree rooted at the start, the path excludes the start, is empty exactly when the end is the start, and otherwise prefixed by the start is a walk to the end |
| Paths.PathLengthIsDistance | MAZEEE.py:110-117 | on a predecessor tree whose every link goes one step further from the start, the reconstructed path has as many cells as the end's distance |
| Paths.ExhaustedMeansUnreachable | MAZEEE.py:149 | a set that holds the start, lacks the goal and is closed under open passages proves the goal unreachable |
| Dfs.Shuffle | MAZEEE.py:145 | the shuffled neighbours are a permutation of the originals |
| Dfs.ShuffleIsAnyPermutation | MAZEEE.py:145 | every permutation is the result of some sequence of draws |
| Dfs.ShuffleBelowKeepsTail | MAZEEE.py:145 | a shuffle of the first `n` positions keeps the length and leaves every later position alone |
| Dfs.ShuffleWithoutSwaps | MAZEEE.py:145 | draws that keep every element in place leave the order unchanged |
| Dfs.TopUnvisited | MAZEEE.py:133-136 | the popped entry is the topmost entry of an unvisited cell; everything above it is visited; none exists exactly when all are visited |
| Dfs.PushUnvisited | MAZEEE.py:146-148 | the old stack is kept below; the pushed entries are exactly the unvisited neighbours, each with the expanded cell as parent |
| Dfs.PushUnvisitedOrder | MAZEEE.py:146-148 | the pushed entries follow the shuffled list: one entry per position holding an unvisited cell, at strictly increasing positions, so a cell listed twice is pushed twice and the number pushed is the number of unvisited positions |
| Dfs.DfsResume | MAZEEE.py:133-140 | `notfound` is reported, and the generator ends, exactly when every stacked cell is visited; otherwise the visit settles the topmost unvisited entry, a cell not visited before, and the stack keeps only the entries below it, those above being visited ones |
| Dfs.DfsNext | MAZEEE.py:129-149 | `Stop` exactly after the generator ended; the visited set only grows, by the one visited cell; `found` only right after the goal's visit, and right after it always `found` with the reconstructed path, ending the generator; predecessors are added only for newly visited cells |
| Dfs.DfsStartInv | MAZEEE.py:130-132 | the initial state satisfies the search invariant |
| Dfs.DfsNextInv | MAZEEE.py:133-149 | every step keeps the search invariant until the generator ends |
| Dfs.DfsFoundPath | MAZEEE.py:141-142 | the reported path excludes the start, is empty exactly when start and goal coincide, and otherwise prefixed by the start is a walk to the goal |
| Dfs.DfsNotFoundUnreachable | MAZEEE.py:133-149 | `notfound` is reported only when no walk leads from the start to the goal |
| Dfs.DfsCameFromWriteOnce | MAZEEE.py:137-139 | existing predecessors never change; a new one is written only for the visited cell, and it is a visited cell with an open passage to it |
| Dfs.DfsVisitsBounded | MAZEEE.py:130-137 | the visited set never outgrows the grid |
| Bfs.Enqueue | MAZEEE.py:163-166 | the old queue is kept in front; the appended entries are distinct unvisited neighbours with the expanded cell as parent; every neighbour ends visited |
| Bfs.EnqueueOrder | MAZEEE.py:163-166 | the appended entries follow the neighbour list: one entry per first occurrence of a cell that was not visited, at strictly increasing positions, and no other |
| Bfs.BfsResume | MAZEEE.py:155-159 | a visit reports the front of the queue and removes it; an empty queue gives `notfound` |
| Bfs.BfsNext | MAZEEE.py:151-167 | `Stop` exactly after the generator ended; the visited set only grows; `found` only right after the goal's visit, and right after it always `found` with the reconstructed path, ending the generator |
| Bfs.BfsStartInv | MAZEEE.py:152-154 | the initial state satisfies the search invariant |
| Bfs.BfsNextInv | MAZEEE.py:155-167 | every step keeps the search invariant until the generator ends |
| Bfs.BfsSettlesOnce | MAZEEE.py:155-159 | each visit settles a cell not settled before; the reported visited set is the settled cells plus the queued ones |
| Bfs.BfsFoundPath | MAZEEE.py:160-161 | the reported path excludes the start, is empty exactly when start and goal coincide, and otherwise prefixed by the start is a walk to the goal; no walk from the start to the goal is shorter, so the route is a shortest one |
| Bfs.SettledPathIsShortest | MAZEEE.py:155-166 | in a search state satisfying the invariant, every settled cell's reconstructed path is a walk from the start and no walk to that cell is shorter |
| Bfs.BfsVisitIsShortest | MAZEEE.py:155-159 | at each visit the visited cell's reconstructed path is a shortest walk from the start |
| Bfs.PopLayers | MAZEEE.py:155-158 | taking the front of the queue keeps the layering with the same distances |
| Bfs.NextLayerIsShortest | MAZEEE.py:163-166 | a cell not yet visited when `x` is expanded has no walk from the start shorter than one step past `x` |
| Bfs.ExpandLayers | MAZEEE.py:163-166 | after an expansion the layering still holds: the new cells sit one step past `x` at the back of the queue, and the queue still spans two consecutive distances |
| Bfs.BfsNotFoundUnreachable | MAZEEE.py:155-167 | `notfound` is reported only when the goal is unreachable |
| Bfs.BfsCameFromWriteOnce | MAZEEE.py:156-158 | existing predecessors never change; a new one is written only for the visited cell, and it is a settled cell with an open passage to it |
| Bfs.BfsVisitsBounded | MAZEEE.py:152-165 | the settled cells are among the visited ones, which never outgrow the grid |
| Heap.MinIndex | MAZEEE.py:175 | `heappop` returns an entry that no other entry precedes in `(key, cell)` order |
| Heap.Remove | MAZEEE.py:175 | popping removes exactly the one entry: the remaining entries are the old ones, as a multiset, less one copy of it |
| Heap.UniqueRemove | MAZEEE.py:175 | popping keeps the entries' `(key, cell)` pairs distinct |
| Dijkstra.Relax | MAZEEE.py:185-189 | distances only fall; each neighbour ends within `d + 1`; a changed distance is `d + 1` with a fresh entry `(d + 1, n, x)`; old entries are kept |
| Dijkstra.DijkstraResume | MAZEEE.py:174-181 | `notfound` exactly when every heap entry belongs to a visited cell; otherwise the visit reports a cell not visited before, adds exactly it, and comes from a heap entry whose distance, the new current distance, and cell are least among the entries of unvisited cells |
| Dijkstra.DijkstraNext | MAZEEE.py:169-190 | `Stop` exactly after the generator ended; the visited set only grows, by the one visited cell; `found` only right after the goal's visit, and right after it always `found` with the reconstructed path, ending the generator |
| Dijkstra.DijkstraStartInv | MAZEEE.py:170-173 | the initial state satisfies the search invariant |
| Dijkstra.DijkstraNextInv | MAZEEE.py:174-190 | every step keeps the search invariant until the generator ends |
| Dijkstra.DijkstraVisitsInOrder | MAZEEE.py:175-181 | popped distances never decrease, and a visited cell's recorded distance is the one it was popped at |
| Dijkstra.VisitedPathIsShortest | MAZEEE.py:175-183 | in a search state satisfying the invariant, every visited cell's distance is the length of a shortest walk from the start, and its reconstructed path is a walk of exactly that length |
| Dijkstra.DijkstraVisitIsShortest | MAZEEE.py:175-189 | a visited cell's distance is the length of a shortest walk to it, and its reconstructed path is such a walk |
| Dijkstra.DijkstraFoundPath | MAZEEE.py:182-183 | the reported path is a shortest walk from the start to the goal, without the start |
| Dijkstra.DijkstraNotFoundUnreachable | MAZEEE.py:174-190 | `notfound` is reported only when the goal is unreachable |
| Dijkstra.DijkstraCameFromWriteOnce | MAZEEE.py:178-180 | existing predecessors never change; a new one is written only for the visited cell, and it is a visited cell with an open passage to it |
| Dijkstra.DijkstraVisitsBounded | MAZEEE.py:172-178 | the visited set never outgrows the grid |
| Heuristic.Manhattan | MAZEEE.py:192-195 | the distance is a natural number, zero exactly when the two cells are the same |
| Heuristic.ManhattanSymmetric | MAZEEE.py:192-195 | the distance is the same in both directions |
| Heuristic.ManhattanOpenStep | MAZEEE.py:192-195 | cells joined by an open passage are at distance one |
| Heuristic.ManhattanAdjacent | MAZEEE.py:192-195 | one step through an open passage changes the distance to the goal by at most one |
| Heuristic.ManhattanAtMostWalk | MAZEEE.py:192-195 | the distance never exceeds the number of steps of a walk, so the heuristic is admissible |
| AStar.Relax | MAZEEE.py:216-225 | scores only fall; each neighbour ends within `g[x] + 1`; a changed score is `g[x] + 1` below the old one, with predecessor `x` and a fresh entry keyed by score plus distance to the goal; predecessors change only where scores do |
| AStar.AStarResume | MAZEEE.py:204-212 | `notfound` exactly when every heap entry belongs to a closed cell; otherwise a visit reports a cell not closed before, adds exactly it to the closed set, and reports the closed set and predecessor map |
| AStar.ResumePopsLeast | MAZEEE.py:204-209 | the visited cell comes from a heap entry that no entry of a still open cell precedes in (estimate, cell) order |
| AStar.AStarNext | MAZEEE.py:197-226 | `Stop` exactly after the generator ended; a visit reports a cell that was not closed; the closed set only grows; `found` only right after the goal's visit, and right after it always `found` with the reconstructed path, ending the generator |
| AStar.AStarStartInv | MAZEEE.py:198-203 | the initial state satisfies the search invariant |
| AStar.PoppedAtEstimate | MAZEEE.py:205-207 | an entry popped for an open cell is keyed by that cell's current score plus its distance to the goal |
| AStar.SettleIsShortest | MAZEEE.py:205-211 | the cell about to be closed has a score no walk from the start beats |
| AStarTheorems.AStarExpandInv | MAZEEE.py:216-225 | relaxing the neighbours of a closed cell other than the goal keeps the search invariant |
| AStarTheorems.ExpandNeverReopens | MAZEEE.py:216-225 | relaxation keeps the old entries and pushes none for a closed cell, so a closed cell is never reopened |
| AStarTheorems.ExpandKeepsClosedLinks | MAZEEE.py:216-221 | relaxation keeps every predecessor key and changes no closed cell's predecessor |
| AStarTheorems.AStarNextInv | MAZEEE.py:204-226 | every step keeps the search invariant until the generator ends |
| AStarTheorems.AStarVisitIsShortest | MAZEEE.py:205-212 | a visited cell's score is the length of a shortest walk to it, and its reconstructed path is such a walk |
| AStarTheorems.AStarFoundPath | MAZEEE.py:213-214 | the reported path is a shortest walk from the start to the goal, without the start |
| AStarTheorems.AStarNotFoundUnreachable | MAZEEE.py:204-226 | `notfound` is reported only when the goal is unreachable |
| AStarTheorems.AStarClosedLinksStable | MAZEEE.py:210-221 | no predecessor is ever removed, and a changed predecessor always belongs to a cell that was not closed |
| AStarTheorems.AStarVisitsBounded | MAZEEE.py:203-209 | the closed set never outgrows the grid |

## Behaviour of the code worth knowing

- **Path contents.** `reconstruct_path` does not include the start cell, whose predecessor is never recorded. When the start is the goal, the found path is empty.
- **BFS visited set.** The breadth-first search marks a cell visited when it is enqueued. The visited set it reports is therefore the settled cells plus the queued ones (`Bfs.BfsSettlesOnce`).
- **A* predecessors.** A* writes `came_from` in two places:
  - when it improves a neighbour's score (line 221);
  - from the popped entry when it closes a cell (line 211).

  A predecessor can therefore be overwritten while its cell is still open. Only closed cells' predecessors are stable (`AStarTheorems.AStarClosedLinksStable`). The predecessor map still stays a tree of open passages rooted at the start.
- **A* reopening.** A closed cell is never expanded again. Its entries are skipped when they are popped (lines 205-207). The Manhattan heuristic changes by at most one between neighbouring cells (it is consistent), so relaxation never pushes an entry for a closed cell in the first place (`AStarTheorems.ExpandNeverReopens`).
- **After the last event.** After `found` or `notfound` the generator returns. A further `next()` raises `StopIteration`, which is the `Stop` event.

## Left out

- The pygame window, drawing, fonts, colours, the difficulty presets and the event loop are not modelled. They are presentation only.
- `animate_callback` is not modelled. It is a UI hook with no effect on the maze.
- Randomness is not modelled as a distribution. `random.choice` in carving is the parameter `choose`: the k-th advance takes entry `choose(k) % |neighbours|`. `random.shuffle` in DFS is the parameter `draw`, and `Dfs.ShuffleIsAnyPermutation` shows that every order is reachable.
- Heap.MinIndex: pops the least entry by `(key, cell)` only, not by the whole tuple with the parent. Both searches keep the `(key, cell)` pairs distinct (`Heap.EntriesUnique` is part of their invariants), so the parent is never compared and `heapq` would pick the same entry. The tree layout inside `heapq` is not modelled.
- `math.inf` is not modelled as a value. A cell without a score or distance is a cell absent from the map.
- A*'s `fscore` and `open_set` are not kept. `fscore[n]` is read only right after it is set, as the key of the pushed entry, which the model computes directly. `open_set` is never read.
- The `visited` set and `came_from` map that a `visit` event carries are values at the moment of the event. In the source they are live objects that later steps mutate. A consumer that keeps the reference sees later contents.
- The maze is assumed unchanged while a search runs. The source does not guard against this.
- Generator.GenerateRecursiveBacktracker: requires at least one column and one row. For an empty grid `get(0, 0)` is `None`, and the source fails with an attribute error.
- Paths.ReconstructPath: on a predecessor map with a cycle, the source's loop never ends. The model uses each key at most once and stops. Every search's predecessor map is proved acyclic, so the two agree on every map a search produces.
- Start and goal indices are natural numbers. Python would accept a negative index and read from the end of the grid; the searches never receive one.
