# Grid pathfinding demo: Dafny model of the grid core

The program draws a 10 x 10 board with Start fixed on the lower-left corner
(0,0) and End on the upper-right corner (9,9). A mouse click toggles an
obstacle (a Block entity) on the clicked cell. Every frame, a breadth-first
search from Start to End runs over the current blocks, and the route is drawn
as Path marker entities.

This project models the part of `src/main.rs` that carries invariants:

- `Pos`, its `u8` coordinates, the unchecked constructor `Pos::new`, the
  checked constructor `Pos::try_new` from `i8` coordinates, and the corner
  tests `min` and `max` (module `Grid`, file `grid.dfy`).
- The deferred command buffer that spawns and despawns entities once a system
  has returned (module `Commands`, file `commands.dfy`). Entities of one kind
  are the sequence of their `Pos` values in query order. A despawn names an
  entity by its index at the time it was queued.
- The toggle system `toggle_block` (module `Toggle`, file `toggle.dfy`). The
  model has two readings of it:
  - `ToggleOne` handles one event against the blocks it reads.
  - `ToggleBatch` is what one run really does: every event of the run is
    decided against the same query snapshot, and the queued commands are
    applied afterwards.
- The successor closure and goal test handed to `bfs`, and what a search
  result must be (module `Search`, file `search.dfy`). The closure computes in
  `i8`, and the wrap-around of that arithmetic is written out. A result is
  "sound" when it is absent or is a walk of successor steps from Start to End.
- The startup placement of Start and End, toggle runs over many frames, and
  the way `pathfinding` replaces the old markers with the cells of the result
  (module `Game`, file `game.dfy`).

Machine integers are subset types of `int` (`U8`, `I8`). The casts `as i8` /
`as u8` and the `i8` additions of the closure are written with their
two's-complement behaviour (`U8AsI8`, `I8AsU8`, `WrapI8`).

Three consequences of the code that the model makes explicit:

- Two toggles of one free cell in one run do not cancel. All events of a run
  read the same query snapshot, so both see the cell free and both spawn a
  block there (`Toggle.RepeatedCellRun`). Only handling the events one after
  another restores the blocks (`Toggle.ToggleTwiceRestores`). The per-cell
  outcome of any run, repeated cells included, is `Toggle.BatchCounts`: a
  taken target loses exactly one block however many events name it, and a
  free target gains one block per event. When the events of a run target
  distinct cells, the run agrees with one-after-another handling up to order
  (`Toggle.DistinctRunIsSequential`).
- `toggle_block` and `pathfinding` are registered with no ordering between
  them, and both only queue commands. The model keeps them as two separate
  functions on the world and does not compose them into one frame.
- `toggle_block` does no bounds check of its own. Its events come from
  `try_new`, which only yields board cells, so the invariant lemmas take
  board-cell events as a premise.

## Model

| member | source | states |
|---|---|---|
| Grid.U8AsI8 | src/main.rs:201-202 | `p.x as i8` yields the unique `i8` congruent to the `u8` value modulo 256 |
| Grid.I8AsU8 | src/main.rs:55-56 | `x as u8` yields the unique `u8` congruent to the `i8` value modulo 256 |
| Grid.WrapI8 | src/main.rs:203-207 | an `i8` addition such as `y - 1` yields the unique `i8` congruent to the exact sum modulo 256 |
| Grid.CastsRoundTrip | src/main.rs:50-59 | casting `u8` to `i8` and back, or `i8` to `u8` and back, returns the original value |
| Grid.New | src/main.rs:41-48 | `Pos::new` may only be called with both coordinates below SIZE and then builds a board cell with exactly those coordinates |
| Grid.TryNew | src/main.rs:50-59 | `try_new(x, y)` returns a position iff 0 <= x < SIZE and 0 <= y < SIZE, and that position is a board cell carrying exactly x and y |
| Grid.TryNewRoundTrip | src/main.rs:50-59 | feeding a position's coordinates, cast to `i8`, back through `try_new` gives the position back exactly when it is a board cell, and nothing otherwise |
| Grid.Corners | src/main.rs:61-67 | `min` holds exactly at (0,0) and `max` exactly at (SIZE-1,SIZE-1); both are board cells and no cell satisfies both |
| Commands.Apply | src/main.rs:149-159 | applying a buffer adds at most one entity per command; without despawns the store grows by exactly the spawned values, in order; when every entity is despawned only the spawned values remain |
| Commands.SurvivorsKeepCount | src/main.rs:157-159 | despawns that hit no entity carrying a value keep every copy of it |
| Commands.SurvivorsLoseOne | src/main.rs:157-159 | despawns that hit exactly one entity carrying a value remove exactly one copy of it |
| Commands.SurvivorsMembers | src/main.rs:157-159 | a value is still present after despawns exactly when some entity carrying it was not despawned |
| Commands.ApplyMembers | src/main.rs:149-159 | after a command buffer is applied, a value is present exactly when an entity carrying it escaped every despawn or a spawn command created it |
| Commands.SurvivorsSingle | src/main.rs:157-159 | despawning one entity of an untouched store removes exactly that entity and keeps the others in order |
| Commands.SurvivorsDespawnOne | src/main.rs:157-159 | despawning one more entity removes exactly one copy of its value from the store |
| Commands.SpawnedMembers | src/main.rs:149-155 | a value is created by a buffer exactly when one of its commands spawns it |
| Commands.SurvivorsExtremes | src/main.rs:157-159 | despawning no entity keeps the store as it was; despawning every entity empties it |
| Commands.ApplyConcat | src/main.rs:142-161 | applying two buffers queued against one store as one buffer removes the despawns of both, then adds the spawns of the first and then of the second |
| Commands.SpawnedConcat | src/main.rs:149-155 | the spawns of two buffers run one after the other are the spawns of the first followed by those of the second |
| Commands.DespawnedConcat | src/main.rs:157-159 | the despawns of two buffers run one after the other are the union of their despawns |
| Toggle.Find | src/main.rs:147 | the query search finds nothing iff no block has the cell, and otherwise returns the index of the first block at that cell |
| Toggle.PlanEvent | src/main.rs:144-160 | a corner event queues nothing; an event on a free cell queues one spawn at that cell; an event on a taken cell queues one despawn of the first block there |
| Toggle.IsProtected | src/main.rs:144-146 | the skipped cells are exactly (0,0) and (SIZE-1,SIZE-1) |
| Toggle.Plan | src/main.rs:142-161 | a run queues at most one command per event |
| Toggle.PlanCommands | src/main.rs:142-161 | every queued spawn is for a free unprotected target; every queued despawn is of the first block on an unprotected target; every free unprotected target gets a spawn and every taken one a despawn of its first block |
| Toggle.PlanDespawns | src/main.rs:147-159 | a run despawns an entity exactly when it is the first block on a taken, unprotected target |
| Toggle.PlanSpawnCount | src/main.rs:147-156 | a run spawns one block on a free, unprotected cell per event naming it, and none on any other cell |
| Toggle.ToggleOne | src/main.rs:144-160 | a corner event leaves the blocks unchanged; on a free cell it appends one block at that cell; on a taken cell it removes only the first block there and keeps every other block in order |
| Toggle.ToggleOneCounts | src/main.rs:147-159 | an unprotected toggle adds one block at a free cell or removes one at a taken cell, and no other cell's block count changes |
| Toggle.ToggleOneAppliesPlan | src/main.rs:138-160 | the single-event reading equals queuing that event's commands against the blocks and applying them |
| Toggle.ToggleBatch | src/main.rs:136-162 | after a run, a protected cell is blocked iff it was before; every block was there before or is an event's cell; every free unprotected target is now blocked (the per-cell counts are `Toggle.BatchCounts`) |
| Toggle.Sequential | src/main.rs:142-161 | handling events one after another never changes whether a protected cell is blocked |
| Toggle.BatchOfNothing | src/main.rs:142-161 | a run without events leaves the blocks exactly as they were |
| Toggle.SingleEventBatch | src/main.rs:142-161 | a run with one event equals the single-event reading |
| Toggle.ToggleOneFlips | src/main.rs:147-159 | on blocks without duplicates, an unprotected toggle flips that cell's membership, keeps every other cell's membership and creates no duplicate |
| Toggle.ToggleTwiceRestores | src/main.rs:147-159 | on blocks without duplicates, two sequential toggles of one cell restore the block contents; when the cell started free they restore the exact sequence |
| Toggle.ToggleTwiceFromFree | src/main.rs:147-159 | on any blocks, two sequential toggles of a free cell restore the exact sequence: the first appends a block, the second removes that block |
| Toggle.BatchCounts | src/main.rs:136-162 | after a run, a protected or untargeted cell keeps its block count, a taken target loses exactly one block, and a free target gains one block per event naming it |
| Toggle.BatchMembership | src/main.rs:136-162 | after a run, an untargeted cell is blocked iff it was before; an unprotected target is blocked iff it was free or carried at least two blocks |
| Toggle.RepeatedCellRun | src/main.rs:138-156 | on empty blocks, two events for one unprotected cell in a single run leave two blocks there (any blocks: `Toggle.BatchCounts`) |
| Toggle.RepeatedCellSequential | src/main.rs:147-159 | two events for one unprotected cell handled one after another on empty blocks leave none |
| Toggle.SameCellTwiceInOneRun | src/main.rs:138-159 | two events for one free cell in a single run spawn two blocks there, while the sequential reading ends with none |
| Toggle.SequentialKeepsOthers | src/main.rs:147-159 | sequential handling does not change the block count of a cell that no event targets |
| Toggle.DistinctRunIsSequential | src/main.rs:136-162 | when a run's events target distinct cells, the snapshot-based run leaves the same blocks, up to order, as sequential handling |
| Search.Candidates | src/main.rs:201-208 | for a board cell, the four candidates are (x,y-1), (x,y+1), (x-1,y), (x+1,y) exactly, in that order, with no wrap-around |
| Search.Checked | src/main.rs:209 | `try_new` keeps a candidate iff it is a board cell with those coordinates |
| Search.OnBoard | src/main.rs:209 | `filter_map(try_new)` keeps exactly the board cells whose coordinates are among the candidates |
| Search.Unblocked | src/main.rs:210-212 | the blocks filter keeps exactly the cells that carry no block |
| Search.Successors | src/main.rs:200-213 | at most 4 successors, each a board cell without a block; from a board cell a cell is a successor iff it is a neighbour at distance 1, on the board and unblocked; successors come in order (x,y-1), (x,y+1), (x-1,y), (x+1,y) |
| Search.IsGoal | src/main.rs:214 | the goal test `p == end` holds exactly at distance zero from End |
| Search.AdjacentIsCandidate | src/main.rs:203-208 | from a board cell, the neighbours at distance 1 are exactly the four candidates |
| Search.NeighboursInOrder | src/main.rs:203-209 | the candidates `try_new` keeps are neighbours listed in closure direction order |
| Search.UnblockedKeepsOrder | src/main.rs:210-212 | dropping blocked cells keeps the direction order |
| Search.WalkOnBoard | src/main.rs:198-215 | every cell of a walk from a board cell is on the board, every cell after the first is unblocked, and consecutive cells are neighbours |
| Search.WalkLength | src/main.rs:198-215 | a walk from a board cell to the goal has at least Manhattan distance + 1 cells |
| Search.EnclosedGoalUnreachable | src/main.rs:198-215 | if every board neighbour of the goal is blocked and the start is unblocked and different, no walk reaches the goal |
| Search.EnclosedGoalHasNoPath | src/main.rs:198-215 | a search that returns only walks must report no path for such an enclosed goal |
| Search.StartCornerSuccessors | src/main.rs:200-213 | on an empty board the successors of (0,0) are (0,1) then (1,0) |
| Search.WrapAroundOffBoard | src/main.rs:201-209 | for an off-board position with x = 255, the `i8` wrap-around gives (0,0) as a successor, so the distance property needs a board cell |
| Game.Setup | src/main.rs:76-98 | Start is at (0,0) and End at (9,9): distinct board cells, exactly the `min` and `max` corners, with no blocks or markers yet |
| Game.ToggleBlock | src/main.rs:136-162 | a toggle run changes only the blocks, and it keeps Start and End unblocked and all blocks on the board when the events are board cells |
| Game.RunFrames | src/main.rs:136-162 | running the toggle system frame after frame changes neither Start, End nor the markers |
| Game.OneEventPerFrame | src/main.rs:136-162 | when each frame carries one event, the blocks after the frames are those of handling the events one after another (`Toggle.Sequential`) |
| Game.FramesKeepInvariant | src/main.rs:144-146 | any number of frames of board-cell toggles keeps Start and End unblocked, keeps all blocks on the board and leaves Start and End in place |
| Game.EndpointsNeverBlocked | src/main.rs:88-97 | starting from setup, no sequence of toggle frames ever blocks (0,0) or (9,9) |
| Game.DespawnAll | src/main.rs:217-219 | the clearing loop queues a despawn for every existing marker and nothing else |
| Game.SpawnAll | src/main.rs:221-231 | the drawing loop queues exactly one command per path cell, and every one of them is a spawn |
| Game.SpawnAllSpawnsPath | src/main.rs:221-231 | the spawns the drawing loop queues create exactly the path's cells, in path order |
| Game.NoSpawns | src/main.rs:217-219 | a buffer of despawns only creates no entity |
| Game.PublishPlan | src/main.rs:217-231 | the queued commands despawn exactly the existing markers and spawn exactly the result's cells, in path order |
| Game.Publish | src/main.rs:217-231 | after publication the markers are exactly the cells of the result, in order, when it is present and none when it is absent; no earlier marker survives |
| Game.Pathfinding | src/main.rs:185-231 | the pathfinding system changes only the markers, which become the result's cells |
| Game.PublishedPathOnBoard | src/main.rs:198-231 | with a walk result in a world keeping the invariant, the drawn markers run from Start to End, stay on the board, avoid blocks after Start and number at least 19 |
| Game.EnclosedEndDrawsNothing | src/main.rs:198-231 | when every board neighbour of End is blocked, a walk-only search draws no marker |

## Left out

- The search `bfs` comes from an external library whose code is not part of
  this model. A result is a parameter, constrained only to be a walk of
  successor steps from Start to End. Shortest length, visiting each cell once
  and the tie-break among equal walks are not claimed. `Search.WalkLength` is
  a lower bound that holds for every walk.
- Sprites, materials, colours, cameras, the window and the app builder are
  rendering and framework plumbing.
- `mouse_click_system` and `get_camera_position_in_world_coordinates` convert
  `f32` cursor positions. They only feed `try_new`. Their effect is reflected
  in the assumption that toggle events are board cells.
- `grid_to_transform` is a pixel-position mapping used only for drawing.
- System scheduling and event delivery. No order between `toggle_block` and
  `pathfinding` is fixed, so no per-frame composition of the two is modelled.
- Query order is not fixed by the entity store, neither for newly spawned
  entities nor for the survivors of a despawn (the store may move another
  entity into the freed slot). The model places survivors in their old
  relative order and new entities after them, in spawn order. That order is a
  modelling convention: only the membership and multiset contracts describe
  the program. These rest on it: the order clauses of
  `Commands.SurvivorsSingle`, `Commands.Apply` (`r == live + Spawned(cmds)`),
  `Toggle.ToggleOne` and `Game.Publish`; the exact-sequence clauses of
  `Toggle.ToggleTwiceRestores` and `Toggle.ToggleTwiceFromFree`; the sequence
  equalities of `Toggle.SingleEventBatch`, `Toggle.RepeatedCellRun`,
  `Toggle.SameCellTwiceInOneRun` and `Game.OneEventPerFrame`; and which block
  `find` meets first among several on one cell.
- Toggle.ToggleBatch: its own contract states membership facts only. The
  per-cell block counts, including untargeted blocks surviving and a taken
  target losing exactly one block, are stated by `Toggle.BatchCounts` and
  `Toggle.BatchMembership`, to keep the function's proof small.
- Grid.New: the `debug_assert!` checks become a precondition. A release build
  would construct any `u8` pair; every position the program builds is a board
  cell.
- Search.Successors: models the release-build wrap-around of `i8` arithmetic.
  A debug build would panic on overflow instead; for board cells neither case
  arises.
- The `expect` calls on the Start and End queries: the world holds exactly one
  Start and one End, so the panics cannot be expressed.
- `despawn_recursive` on markers and blocks: these entities have no children,
  so it acts as a plain despawn. Despawning an entity twice acts as once.
