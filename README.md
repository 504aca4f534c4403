# roboprojekt turn engine in Dafny

This project models the turn-resolution core of roboprojekt, a RoboRally-style
game, as implemented in `backend.py`. Robots stand on a board whose cells hold
stacks of tile layers. A robot plays the card of the current game round. A
movement card makes it walk, pushing any robots in its way. A rotation card
turns it. Then the board acts, in four phases: pushers, then gears, then
lasers, then flags and repair points. After the fifth round, robots with no
lives left are removed and the fallen ones restart on their starting squares.

The project has four modules:

- `Util` (util.dfy) stands in for the game's `util` module, which is not part
  of this model. It provides directions, rotations, the coordinate stepping of
  `get_next_coordinates`, the `HoleTile`, and a `Tile` record. Each field of
  that record is the parameter of one tile hook the engine calls
  (`can_move_from`, `can_move_to`, `kill_robot`, `push_robot`, `rotate_robot`,
  `shoot_robot`, `collect_flag`, `repair_robot`).
- `Rules` (rules.dfy) gives every operation of the engine as a pure function.
  It works on the board and a value snapshot of the robot roster, with robots
  named by their position in the roster.
- `Backend` (backend.dfy) holds the classes:
  - `Robot` and `State` objects whose fields the methods update in place.
  - Each method has the same loops and branches as backend.py. One
    exception: the four phase loops of `apply_tile_effects` share one method,
    `Robot.ApplyLayers`. Its `break` is guarded by the phase, so it fires only
    in the pusher and laser loops, which are the two with a `break` in
    backend.py.
  - Each method is proved to compute exactly its `Rules` function, reading the
    roster through `Values(state.robots)`.
  - Ghost index parameters say where the robot stands in `state.robots`.
  - `State.Valid` requires that no robot object appears twice in the roster
    and that every board cell holds at least one layer.
- `Properties` (properties.dfy) proves what the engine promises about those
  functions.

Some behaviour is modelled exactly as the code does it, although a reader may
not expect it:

- A robot that falls into a hole part-way through a walk keeps stepping from
  the off-board position (-1, -1). Every later step that again leads off the
  board costs it one more life (`StepsAfterFall`, `WalkOffBoard`). This
  follows from backend.py only under an assumption about the `util` module,
  which is not part of this model: the hole tile blocks no step, and its
  `kill_robot` calls `die()`.
- Walking a negative distance turns the robot round and walks with its own
  reversed facing. Any direction argument is ignored (`ClearWalkBack`).
- Termination of the mutually recursive walk-and-push uses a lexicographic
  measure. The first part is the distance class. The second is the number of
  robots ahead of the walker in its direction.

## Model

| member | source | states |
|---|---|---|
| Backend.Robot.constructor | backend.py:11-22 | a new robot faces the given direction on the given cell, which is also its start; the program is the fixed two-card test program; 3 lives, 0 flags, 4 damage |
| Backend.Robot.Inactive | backend.py:27-33 | a robot object is inactive exactly when its value is, that is when it stands on the sentinel cell (-1, -1) |
| Backend.Robot.Die | backend.py:116-122 | the robot loses one life and is then inactive (off the board), nothing else changes |
| Properties.DieEffect | backend.py:116-122 | `die` makes the robot inactive with one life fewer and keeps facing, flags, damage, start and program |
| Backend.Robot.Rotate | backend.py:124-128 | only the facing changes, to the facing reached by the given turn |
| Backend.Robot.Turn | backend.py:124-128 | `rotate` called on a robot of the roster (the calls at lines 55, 57 and 145): the roster changes at that robot only, whose new value is the old one turned by the given rotation |
| Properties.TurnsUndo | backend.py:54-57 | a U-turn undone by a U-turn restores the facing, Right then Left restores it, and stepping forward then backward returns to the cell |
| Backend.Robot.CheckHole | backend.py:147-154 | the robot's new value is the layer loop over the tiles at its cell, stopping once it is inactive |
| Rules.KillLayers | backend.py:147-154 | checking a stack for holes either leaves the robot alone or kills it once, never more |
| Properties.KillLayersIff | backend.py:147-154 | an active robot dies exactly when some layer of the stack is a hole, and is unchanged otherwise |
| Properties.KillLayersNoHole | backend.py:147-154 | a stack without holes never changes the robot |
| Properties.OffBoardKills | backend.py:184-197 | entering a cell off the board kills the robot, because the lookup returns a single hole |
| Backend.State.constructor | backend.py:175-179 | the state holds the given board, roster and sizes, and the game round starts at 1; the state is valid when the board has no empty cell and no robot object is listed twice |
| Rules.GetTiles | backend.py:184-197 | on a well-formed board the stack is never empty; off the board it is exactly the one `HoleTile` layer, a hole with no walls and no other effect |
| Rules.CheckWall | backend.py:298-330 | a step is allowed exactly when every layer of the current cell lets the robot leave in that direction and every layer of the next cell lets it enter |
| Rules.ExitAllowedIff | backend.py:313-317 | the first loop of `check_wall` answers true exactly when no layer forbids leaving |
| Rules.EntryAllowedIff | backend.py:324-328 | the second loop answers true exactly when no layer forbids entering |
| Properties.OffBoardNoWall | backend.py:311-330 | a step between two off-board cells is never walled |
| Backend.RobotAt | backend.py:67-72 | the scan returns the first robot on the cell, and nothing exactly when nobody stands there |
| Rules.FirstAtIs | backend.py:67-72 | an index is the first one standing on the cell (or none stands there) exactly when the roster scan returns it |
| Backend.Robot.Walk | backend.py:40-86 | the roster after `walk` is the model walk of this robot; for a non-negative distance it is the step loop alone |
| Backend.Robot.WalkBack | backend.py:54-57 | turn round, walk the distance with the reversed facing, turn back |
| Backend.Robot.WalkLoop | backend.py:59-86 | the `for` loop takes at most `distance` steps and stops at the first wall |
| Backend.Robot.WalkStep | backend.py:61-86 | one loop pass: the robot in the way walks one step first, and the walker enters and checks for holes only if that robot moved |
| Properties.WalkPlaces | backend.py:40-86 | walking changes only positions and lives of any robot, and never adds a life |
| Properties.ClearWalk | backend.py:59-86 | on a lane without walls, robots or holes, walking n ≥ 0 steps moves the walker exactly n cells and nobody else |
| Properties.ClearWalkBack | backend.py:54-59 | walking −n on a clear lane behind the robot moves it n cells backwards, keeps its facing, and ignores the direction argument |
| Properties.PushIntoHole | backend.py:73-81 | a robot in the way that is pushed into a hole or off the board loses one life and leaves the board, and since it moved, the walker then enters the cell it stood on |
| Properties.PushOne | backend.py:73-81 | pushing a robot whose own next cell is clear, off a cell without holes, moves both robots one cell in the walking direction and nobody else |
| Properties.AdvanceBlocked | backend.py:61-81 | when the chain of robots ahead ends at a wall, one pass changes nobody |
| Properties.WalkBlocked | backend.py:59-86 | when the chain ahead ends at a wall, the walk leaves every coordinate and every robot unchanged |
| Properties.WalkRoundTrip | backend.py:40-86 | along a corridor of cells with no wall and no hole in any layer and no other robot on it (pushers, gears, lasers, flags and repair points are allowed), `walk(n)` then `walk(-n)` with any direction argument returns the roster to what it was: the robot is back on its cell with its facing |
| Properties.StepsAfterFall | backend.py:59-86 | a robot that has fallen keeps looping from (-1, -1), and each remaining step off the board costs it one life |
| Properties.WalkOffBoard | backend.py:59-86 | a first step off the board kills the walker, and the n − 1 remaining steps cost one life each |
| Backend.Robot.Move | backend.py:88-114 | the roster after `move` is the model move: at most `distance` steps, stopping at a wall, skipping a step onto an occupied cell |
| Backend.Robot.MoveStep | backend.py:100-114 | one pass of the loop in `move` after the wall check: the robot enters the next cell and checks for holes when nobody stands there, and nothing changes otherwise |
| Backend.Robot.EnterCell | backend.py:84-86 | moving onto a cell and checking it for holes changes only this robot: its coordinates become the cell, and it dies if a layer there is a hole (also lines 79-81 and 112-114) |
| Properties.MoveOnlyMover | backend.py:88-114 | `move` pushes nobody: other robots are unchanged, and the mover changes only position and lives |
| Properties.MoveBlocked | backend.py:96-111 | a robot with an occupied or walled next cell is not moved at all |
| Backend.Robot.ApplyCardEffect | backend.py:130-145 | the card at index round − 1 is played: a movement card walks the robot in its facing, a rotation card turns it |
| Rules.ApplyCard | backend.py:139-145 | a rotation card changes only the player's facing, by the card's turn |
| Properties.MovementCardPlaces | backend.py:139-142 | a movement card is a walk of its distance in the robot's facing, and changes only places and lives |
| Backend.KillRobot | backend.py:152 | a hole layer calls `die`, any other layer leaves the robot alone |
| Backend.PushRobot | backend.py:344 | an active pusher moves the robot one cell by `move`; otherwise nothing changes |
| Backend.RotateRobot | backend.py:351 | a gear layer turns the robot by its rotation |
| Backend.ShootRobot | backend.py:356 | a laser layer adds its damage, or kills the robot when the damage would reach the fatal level |
| Backend.CollectFlag | backend.py:364 | a flag layer counts only when it is the next flag in order |
| Backend.RepairRobot | backend.py:365 | a repair layer removes one damage on its rounds |
| Backend.Robot.ApplyTileTo | backend.py:344-365 | one layer's hook for the phase: the roster becomes `Rules.ApplyTile` of the old one, which changes this robot alone (Properties.ApplyTileEffect); in the flag phase the flag is collected before the repair |
| Backend.Robot.ApplyLayers | backend.py:343-365 | the inner loop over the current cell's layers applies each hook in order; the pusher and laser loops stop once the robot is inactive |
| Backend.ActiveRobots | backend.py:342 | the comprehension keeps exactly the active robots, in roster order |
| Properties.ActiveFromSpec | backend.py:342 | the chosen indices are in range and strictly increasing, and an index is chosen exactly when its robot is active |
| Backend.ApplyPhase | backend.py:342-365 | one phase runs over the robots that were active when it began; the next robot's layers are read at its current cell |
| Backend.PhaseStep | backend.py:342-365 | one pass of a phase's loop over the robots: the roster becomes `Rules.Layers` of the robot at the head of the remaining list over the layers at its current cell, so the rest of the phase is what remains |
| Properties.ApplyTileEffect | backend.py:343-365 | one hook acts on its own robot only, changes only what its phase may change, and costs at most one life, after which the robot is inactive |
| Properties.LayersEffect | backend.py:343-365 | the same holds for a robot's whole layer loop |
| Properties.EachEffect | backend.py:342-365 | robots not in the phase's list are unchanged, and listed robots change only within the phase's limits |
| Properties.RunPhaseEffect | backend.py:342-365 | a phase leaves robots that were inactive at its start unchanged, changes the others within its limits, and costs at most one life |
| Backend.ApplyTileEffects | backend.py:333-369 | the four phases in order, then the end-of-turn reset when the round is 5; the round itself is not changed; outside round 5 `state.robots` is the same list of the same robot objects, and in round 5 every robot kept comes from the old list |
| Properties.TileEffectsOneLife | backend.py:333-366 | outside round 5 the roster keeps its size, and each robot loses at most one life (then inactive), never loses a flag, and keeps program and start |
| Properties.PurgeOnlyInRoundFive | backend.py:367-369 | the roster shrinks only in round 5, after which every robot has a life left |
| Backend.SetRobotsForNewTurn | backend.py:372-388 | the roster becomes the survivors, each respawned; every robot in it was in the old roster; the round is unchanged |
| Backend.AliveRobots | backend.py:381 | the comprehension keeps the robots with lives left, in order, each from the old roster |
| Backend.RebootInactive | backend.py:382-388 | each inactive robot returns to its start, with damage 0 and facing north; active robots are untouched |
| Properties.NewTurnEffect | backend.py:372-388 | each new robot is a survivor with lives > 0 from the old roster, keeping lives, flags and program; an inactive one restarts on its start, undamaged, facing north, and is then on the board unless its start is (-1, -1); an active one is unchanged |
| Properties.SurvivorsAlive | backend.py:381 | every survivor has a life left and comes from the roster, and there are no more of them than robots |
| Properties.SurvivorsAll | backend.py:381 | when every robot has a life left, the roster is kept whole |
| Properties.SurvivorsAppend | backend.py:381 | the filter works piecewise: the survivors of two joined rosters are the survivors of each, in order |
| Backend.GetStartingCoordinates | backend.py:200-218 | each board cell appears in the result once per starting-square layer in its stack, and no other coordinate appears |
| Backend.AppendStartingLayers | backend.py:213-217 | the loop over one stack appends the cell once per starting-square layer |
| Backend.AppendIfStartingSquare | backend.py:215-217 | the `range(9)` loop appends the cell exactly once when the layer shows one of the nine starting-square images, and not at all otherwise |
| Rules.StartMatchesOnce | backend.py:215-217 | the nine image paths differ, so a layer matches at most one of them |
| Properties.StartingLayersBound | backend.py:213-217 | a stack gives at most one coordinate per layer, and none exactly when no layer is a starting square |
| Properties.StartingSquareIff | backend.py:215-216 | a layer is a starting square exactly when its image path is `./img/squares/png/starting_square0`, one digit from 0 to 8, and `.png` |
| Backend.GetTileCount | backend.py:265-277 | the result is the number of distinct x values and of distinct y values among the board's cells |
| Properties.TileCountBound | backend.py:265-277 | neither count exceeds the number of cells |
| Properties.TileCountRectangle | backend.py:265-277 | a w by h board with corner (0, 0) is counted as (w, h) |

## Left out

- The frontend, the loading of maps (`get_board`, `get_start_state`), `get_robot_paths` and the random choice of avatars in `get_robots_to_start`. These are file input, image paths and randomness.
- The `util` tile classes are not part of this model. Their hooks are represented by the fields of `Util.Tile`. The direction deltas and turn tables of `Direction` and `Rotation` are stated directly. So are `get_next_coordinates`, with north as y + 1, and `HoleTile`, as a hole with no walls.
- Backend.KillRobot: the rule that a hole layer calls `die()` and every other layer does nothing is an assumption about `util`, not code from backend.py.
- Backend.PushRobot: the rule that a pusher moves the robot one cell by `move` on its listed rounds is an assumption about `util`.
- Backend.RotateRobot: the rule that a gear turns the robot by its rotation is an assumption about `util`.
- Backend.ShootRobot: the rule that a laser adds its strength in damage, or calls `die()` when the damage would reach its fatal level, is an assumption about `util`.
- Backend.CollectFlag: the rule that a flag counts only when it is the next one in order is an assumption about `util`.
- Backend.RepairRobot: the rule that a repair layer removes one damage on its rounds is an assumption about `util`.
- Several proved properties depend on these assumed hook rules. `TileEffectsOneLife`'s "never loses a flag" depends on the CollectFlag rule. The at-most-one-life limit of the laser phase depends on the ShootRobot rule. The life-per-step behaviour after a fall depends on the KillRobot rule.
- The robots' image paths (`path`, `path_front`) and the `__repr__` methods. They are cosmetic.
- Conveyor belts and robot lasers: the source leaves them as comments in `apply_tile_effects`.
- Card priority is stored but never used, as in the source.
- The iteration order of `board.items()` is not modelled, because a map has no order. Backend.GetStartingCoordinates states which coordinates occur and how often, not their order.
- Backend.Robot.Walk: the optional `direction=None` default is not modelled. Callers pass the robot's own facing, as `apply_card_effect` does.
- Backend.Robot.ApplyCardEffect: requires 1 ≤ game round ≤ the program's length. `game_round - 1` below 0 would read from the end of the list, and beyond the end it would raise an error.
- Rules.CheckWall requires both stacks to be non-empty. With an empty stack the source reads an unset local and raises an error. `State.Valid` guarantees non-empty stacks on the board.
- The game round is never advanced by the modelled code. It is a field of `State` that the methods read.
- `State.sizes` is stored and never read.
