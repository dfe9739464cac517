# Maze Flux in Dafny

A verified model of the core of a timed maze game. The maze generator
builds a square grid of cells in place. It starts from walls, puts the start
in the bottom-left corner and the end in the top-right corner, and then runs
a series of random carving passes: random walks, scattered noise, one
directed strategy (`up-first`, `diagonal` or `zigzag`), a breadth-first
reachability check with a repair, and a few dead ends. The game screen
moves the player, counts the clock down in tenths of a second, takes a
point off the score every fifth tick, and swaps the maze (but not the
player) whenever the clock runs out.

Files:

- `game_types.dfy`: the shared records (`Position`, `CellType`, `Cell`,
  `GameConfig`, `GameState`).
- `random_source.dfy`: `Math.random()` as an explicit oracle object. Every
  draw may come out either way, and every property holds for all outcomes.
- `reachability.dfy`: grid geometry, routes through passable cells,
  connectivity, monotone staircases, and the lemmas that give the
  breadth-first search its meaning.
- `maze_generator.dfy`: the `MazeGenerator` class over an `array2<Cell>`
  indexed `[y, x]`. Every pass is a method with loop invariants.
- `game.dfy`: the game screen's state updates as pure functions on a
  `Session` record.

Main results:

- Every pass keeps the maze square, keeps each cell's coordinates equal to
  its index, keeps the start and the end in their corners, and only adds
  passable cells.
- `HasPath` answers true exactly when the end is reachable from the start
  through passable 4-neighbours.
- `GenerateMaze` always returns a maze whose end is reachable from its start.
- On the game side, every run of events keeps these facts true: the player
  is on the board, the interval is in [2, 10], the clock is positive, the
  score equals 100 minus one point per five ticks, and a won round has the
  player on the goal.

The model keeps these quirks of the code:

- `up-first` moves only when its 0.6 draw succeeds, and always carves the
  wall it moves onto.
- The number of up steps is rounded down.
- The zigzag run has 1 to 3 steps.
- The fallback path picks right or up by a coin flip while both are needed.
- The directed strategy has a second gate of probability 0.7 after the
  first gate of 0.5.
- On a 1 x 1 grid the single cell is `End` and there is no `Start` cell.

## Model

| member | source | states |
|---|---|---|
| MazeGenerator.MazeGenerator.constructor | src/utils/mazeGenerator.ts:6-8 | the generator keeps the configuration it is given |
| MazeGenerator.MazeGenerator.CornersAreUnique | src/utils/mazeGenerator.ts:14-34 | in a valid maze a cell is `Start` iff it is the bottom-left corner and not also the end, `End` iff it is the top-right corner, never `Player`, and its position equals its index; so for gridSize 1 the only cell is `End` |
| MazeGenerator.MazeGenerator.GenerateMaze | src/utils/mazeGenerator.ts:10-40 | the result is a fresh gridSize x gridSize maze with the corners in place, positions matching indices, all other cells wall or path, and the end reachable from the start |
| MazeGenerator.MazeGenerator.GenerateComplexMaze | src/utils/mazeGenerator.ts:42-66 | the passes in order keep the maze valid, only add passable cells, and leave the end reachable from the start (repair when the check fails, then dead ends that cannot disconnect) |
| MazeGenerator.MazeGenerator.Carve | src/utils/mazeGenerator.ts:84-87 | writing a path cell with its own coordinates at a non-corner position keeps the maze valid, adds that position to the passable set, and leaves every other cell unchanged |
| MazeGenerator.MazeGenerator.CreateRandomWalks | src/utils/mazeGenerator.ts:68-109 | every walk stays on the grid (moves off it are dropped), the maze stays valid, and the passable set only grows |
| MazeGenerator.MazeGenerator.AddRandomPaths | src/utils/mazeGenerator.ts:111-129 | the two corners are skipped, the maze stays valid, and the passable set only grows; density 0 changes nothing, density 1 makes every non-corner cell a path |
| MazeGenerator.MazeGenerator.CreateAlternatePaths | src/utils/mazeGenerator.ts:131-140 | a randomly chosen strategy behind the 0.7 gate keeps the maze valid and only adds passable cells |
| MazeGenerator.MazeGenerator.CreatePathStrategy | src/utils/mazeGenerator.ts:142-238 | each of the three strategies keeps the maze valid and only adds passable cells |
| MazeGenerator.MazeGenerator.UpFirstPath | src/utils/mazeGenerator.ts:147-159 | the cells `up-first` moves onto form a passable 4-connected staircase from the start to a cell in the end's column, between the end's row and the start's row; no cell off that route changes |
| MazeGenerator.MazeGenerator.UpFirstRight | src/utils/mazeGenerator.ts:160-168 | the rightward phase extends the passable staircase cell by cell until the end's column, staying in its row; the route so far is kept as a prefix and no cell off the route changes |
| MazeGenerator.MazeGenerator.DiagonalPath | src/utils/mazeGenerator.ts:174-196 | the `diagonal` loop terminates on the end, every step is one right or one up (so it stays in the rectangle between start and end and takes exactly their Manhattan distance); only cells on that route may change, and only to passable |
| MazeGenerator.MazeGenerator.ZigzagPath | src/utils/mazeGenerator.ts:198-236 | `zigzag` stays on the grid and finishes on the end's row at or right of the end's column; only cells in the rows between the end and the start may change, and only to passable |
| MazeGenerator.MazeGenerator.ZigzagRun | src/utils/mazeGenerator.ts:212-222 | a sideways run stays on its row and on the grid, moves at most `steps` columns, and changes no cell outside its row; only passable cells are added |
| MazeGenerator.MazeGenerator.AddLimitedDeadEnds | src/utils/mazeGenerator.ts:240-267 | dead ends open only on-grid cells next to a path cell: every newly passable cell has a `Path` neighbour; the maze stays valid and the passable set only grows |
| MazeGenerator.MazeGenerator.AddDeadEnd | src/utils/mazeGenerator.ts:247-264 | one dead-end round either changes nothing or turns exactly one on-grid cell into a path, and that cell neighbours the path cell it was chosen from |
| MazeGenerator.MazeGenerator.CreateInterestingPath | src/utils/mazeGenerator.ts:269-299 | after the strategy and, if still needed, the fallback, the end is reachable from the start |
| MazeGenerator.MazeGenerator.FallbackPath | src/utils/mazeGenerator.ts:276-298 | the fallback loop terminates on the end and the cells it visits form a passable monotone staircase, so the end is reachable from the start; no cell off that staircase changes |
| MazeGenerator.MazeGenerator.HasPath | src/utils/mazeGenerator.ts:301-339 | the breadth-first search terminates and returns true iff the end is reachable from the start through passable 4-neighbours (true at once when they coincide) |
| MazeGenerator.MazeGenerator.EnqueueNeighbours | src/utils/mazeGenerator.ts:317-335 | the queue only grows, each added cell is a passable on-grid neighbour, and every passable neighbour is either visited or queued afterwards |
| Reachability.AdjacentIsShift | src/utils/mazeGenerator.ts:318-323 | the four direction offsets give exactly the 4-neighbours of a cell |
| Reachability.ConnectedSelf | src/utils/mazeGenerator.ts:313-315 | every cell is reachable from itself |
| Reachability.ConnectedMono | src/utils/mazeGenerator.ts:64-65 | opening more cells never makes a reachable cell unreachable |
| Reachability.SearchExpands | src/utils/mazeGenerator.ts:306-335 | one round of the search (visit the front cell, queue its passable unvisited neighbours) keeps the search invariant |
| Reachability.SearchFails | src/utils/mazeGenerator.ts:338 | when the queue empties without meeting the end, the end is unreachable |
| Reachability.StaircaseShape | src/utils/mazeGenerator.ts:280-297 | a route of right-or-up steps is a 4-connected walk, stays inside the rectangle spanned by its ends, and has exactly their Manhattan distance plus one cells |
| Random.Source.Below | src/utils/mazeGenerator.ts:83 | a draw compared with `p` is never true for p <= 0 and always true for p >= 1 |
| Random.Source.Index | src/utils/mazeGenerator.ts:100 | a random index is below the length it is drawn for |
| Random.Source.Retry | src/utils/mazeGenerator.ts:161-168 | a draw that the loop retries may fail only while slack remains, and each failure spends one unit |
| Random.Source.Fraction | src/utils/mazeGenerator.ts:151 | the number of up steps is at least half and at most seven tenths of the distance |
| Game.Candidate | src/components/Game.tsx:82-97 | from a square on the board, the target is the neighbour in the key's direction when that is on the board, and the square itself otherwise |
| Game.CandidateIsOneStep | src/components/Game.tsx:82-97 | the target is on the board and differs from the current square in at most one coordinate, by at most one |
| Game.MovePlayer | src/components/Game.tsx:78-114 | a won, lost or stopped round ignores moves; a wall blocks the move; otherwise only the player position and the win flag change, and the round is won iff the target is the top-right corner |
| Game.MoveNeverEntersWall | src/components/Game.tsx:99-103 | after a move the player is where they were or on a square that is not a wall |
| Game.IncreaseInterval | src/components/Game.tsx:34-36 | the interval goes up by one and never above 10 |
| Game.DecreaseInterval | src/components/Game.tsx:38-40 | the interval goes down by one and never below 2 |
| Game.IntervalButtons | src/components/Game.tsx:34-40 | inside [2, 10] both buttons stay inside [2, 10], undo each other, and are no-ops exactly at the bounds |
| Game.PressesStayInRange | src/components/Game.tsx:29-40 | no sequence of button presses from the default 5 leaves [2, 10] |
| Game.InitializeGame | src/components/Game.tsx:63-76 | a reset installs the new maze, puts the player on the start square, clears both flags, refills the clock with the interval, restores 100 points, zeroes the tick counter and stops the round |
| Game.TogglePlay | src/components/Game.tsx:42-61 | stopping a running round resets it exactly as `initializeGame` does; starting a stopped round changes nothing else |
| Game.SetInterval | src/components/Game.tsx:197-200 | a changed interval re-runs the reset (the reset routine depends on the interval); an unchanged one changes nothing |
| Game.RestartKey | src/components/Game.tsx:140-145 | the restart key resets only a won or lost round |
| Game.TickUpdate | src/components/Game.tsx:161-187 | the score drops by exactly one iff the new counter is a multiple of five; when the clock runs out the maze is replaced and the clock refilled with the interval; the player and the flags never change |
| Game.Tick | src/components/Game.tsx:155-191 | the timer does nothing unless the round is live; otherwise it advances the counter and applies the updater |
| Game.TicksLowerScore | src/components/Game.tsx:158-165 | k ticks from counter c take one point for each multiple of five in (c, c + k] and leave the player in place |
| Game.Mounted | src/components/Game.tsx:18-30 | the state before the first reset has no maze, the player on the start square, the default 5-second interval on the clock, 100 points, a zero tick counter, and a stopped round that neither keys nor the timer can change |
| Game.Step | src/components/Game.tsx:117-147 | each event (key, tick, interval button, play button, restart key) goes to its update; only the interval buttons change the interval, only a key press moves the player other than back to the start, and the score never rises except when a reset restores it to 100 |
| Game.MountedThenInitialized | src/components/Game.tsx:197-200 | the reset that runs on mount leaves a consistent, stopped session |
| Game.StepKeepsConsistent | src/components/Game.tsx:34-195 | every event (move, tick, interval button, play button, restart key) keeps the session invariant |
| Game.RunKeepsConsistent | src/components/Game.tsx:34-195 | any sequence of events keeps the session invariant: board shape, player on the board, interval in [2, 10], clock positive and at most the interval, score equal to 100 minus one per five ticks, never lost, won only on the goal |

## Left out

- Randomness is an oracle: every draw is arbitrary. Probabilities, the
  distribution of mazes, how path density grows with `pathDensity`, and
  reproducibility under a seeded source are not modelled.
- Random.Source.Retry: the two loops that advance only on a successful draw
  (the `up-first` right walk and the `zigzag` vertical loop) cannot fail
  forever in the model. A `slack` counter bounds the number of failed draws,
  and a draw succeeds once the slack is spent. So the model proves total
  correctness of every run that ends, and says nothing about runs that
  never end.
- Random.Source.Fraction: the floating-point product for the up steps is
  replaced by any whole number between half and seven tenths of the
  distance. Float rounding of the product is not modelled.
- `hasPath` keys its visited set by strings `"x,y"`. The model keeps a set
  of positions, which is the same relation.
- MazeGenerator.MazeGenerator.HasPath: requires the start to be on the grid.
  Every caller passes the start corner.
- MazeGenerator.MazeGenerator.ZigzagPath: promises that the path stays on
  the grid and where it ends, but not that its cells are connected. The
  zigzag carves only some of the cells it visits, so its path need not be
  passable. Its frame is stated by rows (nothing outside the rows from the
  end's row to the start's row changes), not cell by cell along the path.
- MazeGenerator.MazeGenerator.DiagonalPath: promises the shape of its walk
  but not that the walk is passable, for the same reason (each cell is
  carved with probability 0.5).
- The game screen's maze comes from the generator. The game functions take
  it as an input, and its lemmas assume only that it is a 25 x 25 board.
  The conversion from the generator's `array2` to rows is not modelled.
- `timeLeft` is an exact real. The float rounding of `timeLeft - 0.1` is
  not modelled.
- React plumbing is not modelled: hooks, `setInterval`/`setTimeout`, the
  keyboard listener, the `isChanging` flash, `console.log` and rendering.
  The effects are replaced by their net result. The timer ticks only while
  the round is live. A new interval stops the round and resets it, because
  the reset routine depends on the interval and the mount effect re-runs
  it. Moves and ticks are applied one at a time, so closures that see an
  older state are not modelled.
- Game.Step: accepts every event in every state. The screen's buttons are
  disabled in some states: the play button in a won or lost round, and the
  interval buttons while the round plays or at their bound. So the model
  also allows an interval change during play, which the screen does not;
  the session invariant holds either way.
- A grid size below 1 is not modelled: the configuration type
  `MazeConfig` requires `gridSize >= 1`. With a smaller size the generator fails when it writes the start corner, and that
  failure is not modelled.
- `isGameLost` is never set to true by the game screen. The model keeps the
  flag, and its invariant records that it stays false.
- The UI components (`GameBoard`, `GameInfo`, `VictoryModal`, `App`) are not
  part of this model.
