/**
 * Stand-ins for the game's `util` module, which the turn engine imports:
 * directions and rotations, board coordinates and their neighbours, and the
 * tile layers with the hooks the engine calls on them. The tile classes
 * themselves are not part of this model, so a tile is represented by the
 * parameters of its hooks rather than by its class.
 */
module Util {

  datatype Option<T> = None | Some(value: T)

  /** The four facings of a robot, clockwise from north. */
  datatype Direction = N | E | S | W

  /** The turns a rotation card or a gear can make. */
  datatype Rotation = Left | Right | UTurn

  /** `Direction.get_new_direction`: the facing after turning by `r`. */
  function NewDirection(d: Direction, r: Rotation): Direction
  {
    match r
    case Right => (match d case N => E case E => S case S => W case W => N)
    case Left => (match d case N => W case W => S case S => E case E => N)
    case UTurn => (match d case N => S case S => N case E => W case W => E)
  }

  /** A board position (x, y). */
  type Coord = (int, int)

  /** The position of every robot that is not on the board. */
  const Sentinel: Coord := (-1, -1)

  /** `get_next_coordinates`: the cell one step away in direction `d`. */
  function Neighbour(c: Coord, d: Direction): Coord
  {
    match d
    case N => (c.0, c.1 + 1)
    case E => (c.0 + 1, c.1)
    case S => (c.0, c.1 - 1)
    case W => (c.0 - 1, c.1)
  }

  /** A pusher's hook: on the listed rounds it moves the robot one cell. */
  datatype Pusher = Pusher(direction: Direction, rounds: set<int>)

  /**
   * A board laser's hook: the shot adds `strength` damage, or is fatal when
   * the robot's damage would reach `fatalAt`.
   */
  datatype Laser = Laser(strength: nat, fatalAt: int)

  /**
   * One layer of a cell. Each field stands for one hook of the tile classes:
   * `can_move_from(d)` is `d !in exitBlocked`, `can_move_to(d)` is
   * `d !in entryBlocked`, `kill_robot` calls `die()` when `hole` holds,
   * `push_robot`, `rotate_robot` and `shoot_robot` act when `pusher`, `gear`
   * and `laser` are present, `collect_flag` awards flag number `flag`, and
   * `repair_robot` removes one damage on the rounds in `repairRounds`.
   * `path` is the layer's image, by which starting squares are recognised.
   */
  datatype Tile = Tile(
    path: string,
    exitBlocked: set<Direction>,
    entryBlocked: set<Direction>,
    hole: bool,
    pusher: Option<Pusher>,
    gear: Option<Rotation>,
    laser: Option<Laser>,
    flag: Option<int>,
    repairRounds: set<int>)

  predicate CanMoveFrom(t: Tile, d: Direction)
  {
    d !in t.exitBlocked
  }

  predicate CanMoveTo(t: Tile, d: Direction)
  {
    d !in t.entryBlocked
  }

  /** `HoleTile()`: a hole with no walls and no other effect. */
  const HoleTile: Tile := Tile("", {}, {}, true, None, None, None, None, {})

  /** A layer that neither walls a robot in or out nor kills it. */
  predicate IsOpen(t: Tile)
  {
    t.exitBlocked == {} && t.entryBlocked == {} && !t.hole
  }

  /** The cell `n` steps from `c` in direction `d`. */
  function Shift(c: Coord, d: Direction, n: nat): (r: Coord)
    ensures n > 0 ==> r == Neighbour(Shift(c, d, n - 1), d)
  {
    match d
    case N => (c.0, c.1 + n)
    case E => (c.0 + n, c.1)
    case S => (c.0, c.1 - n)
    case W => (c.0 - n, c.1)
  }

  /** `p` lies on the ray from `c` in direction `d`, strictly beyond `c`. */
  predicate IsAhead(p: Coord, c: Coord, d: Direction)
  {
    match d
    case N => p.0 == c.0 && p.1 > c.1
    case E => p.1 == c.1 && p.0 > c.0
    case S => p.0 == c.0 && p.1 < c.1
    case W => p.1 == c.1 && p.0 < c.0
  }
}
