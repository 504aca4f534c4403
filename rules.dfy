/**
 * The turn engine of backend.py on values: every operation of the engine as a
 * pure function over the board and a snapshot of the robot roster (the robots
 * in roster order, each as the value of its fields). The classes in module
 * Backend are proved to compute exactly these functions.
 */
module Rules {
  import opened Util

  /** `MovementCard` and `RotationCard`; the priority is stored, never used. */
  datatype Card =
    | MovementCard(priority: int, distance: int)
    | RotationCard(priority: int, rotation: Rotation)

  /** The fields of one `Robot` (the cosmetic image paths left aside). */
  datatype RobotV = RobotV(
    direction: Direction,
    coordinates: Coord,
    startCoordinates: Coord,
    program: seq<Card>,
    lives: int,
    flags: int,
    damages: int)
  {
    /** `Robot.inactive`: the robot is off the board. */
    predicate Inactive()
    {
      coordinates == Sentinel
    }
  }

  /** The board: each cell's stack of layers, bottom first. */
  type Board = map<Coord, seq<Tile>>

  /** Every cell of the board holds at least one layer. */
  predicate WellFormed(board: Board)
  {
    forall c :: c in board ==> |board[c]| > 0
  }

  // ---------------------------------------------------------------------------
  // Tile lookup and wall checks

  /** `State.get_tiles`: the layers at `c`; off the board, a single hole. */
  function GetTiles(board: Board, c: Coord): (ts: seq<Tile>)
    ensures WellFormed(board) ==> |ts| > 0
    ensures c !in board ==> ts == [HoleTile]
  {
    if c in board then board[c] else [HoleTile]
  }

  /** The first loop of `check_wall`: no layer stops a robot leaving in `d`. */
  function ExitAllowed(ts: seq<Tile>, d: Direction): bool
  {
    if ts == [] then true
    else if !CanMoveFrom(ts[0], d) then false
    else ExitAllowed(ts[1..], d)
  }

  /** The second loop of `check_wall`: no layer stops a robot entering from `d`. */
  function EntryAllowed(ts: seq<Tile>, d: Direction): bool
  {
    if ts == [] then true
    else if !CanMoveTo(ts[0], d) then false
    else EntryAllowed(ts[1..], d)
  }

  /** The first loop of `check_wall` passes exactly when every layer lets the robot leave. */
  lemma {:induction false} ExitAllowedIff(ts: seq<Tile>, d: Direction)
    ensures ExitAllowed(ts, d) <==> forall k :: 0 <= k < |ts| ==> CanMoveFrom(ts[k], d)
  {
    if ts != [] {
      ExitAllowedIff(ts[1..], d);
      assert forall k :: 1 <= k < |ts| ==> ts[k] == ts[1..][k - 1];
    }
  }

  /** The second loop of `check_wall` passes exactly when every layer lets the robot in. */
  lemma {:induction false} EntryAllowedIff(ts: seq<Tile>, d: Direction)
    ensures EntryAllowed(ts, d) <==> forall k :: 0 <= k < |ts| ==> CanMoveTo(ts[k], d)
  {
    if ts != [] {
      EntryAllowedIff(ts[1..], d);
      assert forall k :: 1 <= k < |ts| ==> ts[k] == ts[1..][k - 1];
    }
  }

  /**
   * `check_wall`: the step from `c` in direction `d` is allowed exactly when
   * every layer at `c` lets the robot leave in `d` and every layer at the
   * neighbour lets it enter. Both stacks must be non-empty, since backend.py
   * reads the last answer of each loop after it.
   */
  function CheckWall(board: Board, c: Coord, d: Direction): (ok: bool)
    requires |GetTiles(board, c)| > 0 && |GetTiles(board, Neighbour(c, d))| > 0
    ensures ok <==>
      (forall k :: 0 <= k < |GetTiles(board, c)| ==> CanMoveFrom(GetTiles(board, c)[k], d)) &&
      (forall k :: 0 <= k < |GetTiles(board, Neighbour(c, d))| ==> CanMoveTo(GetTiles(board, Neighbour(c, d))[k], d))
  {
    ExitAllowedIff(GetTiles(board, c), d);
    EntryAllowedIff(GetTiles(board, Neighbour(c, d)), d);
    ExitAllowed(GetTiles(board, c), d) && EntryAllowed(GetTiles(board, Neighbour(c, d)), d)
  }

  // ---------------------------------------------------------------------------
  // One robot's own changes

  /** `Robot.die`. */
  function Die(r: RobotV): RobotV
  {
    r.(lives := r.lives - 1, coordinates := Sentinel)
  }

  /** `Robot.rotate`. */
  function Rotate(r: RobotV, where: Rotation): RobotV
  {
    r.(direction := NewDirection(r.direction, where))
  }

  /** `kill_robot` of one layer: a hole calls `die()`, any other layer does nothing. */
  function Kill(t: Tile, r: RobotV): RobotV
  {
    if t.hole then Die(r) else r
  }

  /** The loop of `Robot.check_hole` over the layers `ts`, stopping once inactive. */
  function KillLayers(r: RobotV, ts: seq<Tile>): (r': RobotV)
    ensures r' == r || r' == Die(r)
  {
    if ts == [] then r
    else
      var r1 := Kill(ts[0], r);
      if r1.Inactive() then r1 else KillLayers(r1, ts[1..])
  }

  /** `Robot.check_hole`: the layers read are those at the robot's position. */
  function CheckHole(board: Board, r: RobotV): RobotV
  {
    KillLayers(r, GetTiles(board, r.coordinates))
  }

  // ---------------------------------------------------------------------------
  // Walking and being moved

  /** The scan of `state.robots` in `walk`: the first robot standing on `c`. */
  function FirstAt(rs: seq<RobotV>, c: Coord): (o: Option<nat>)
    ensures o.Some? ==> o.value < |rs| && rs[o.value].coordinates == c
  {
    if rs == [] then None
    else if rs[0].coordinates == c then Some(0)
    else match FirstAt(rs[1..], c)
      case None => None
      case Some(k) => Some(k + 1)
  }

  /** `FirstAt` is the first robot on `c`, and `None` exactly when nobody stands there. */
  lemma {:induction false} FirstAtIs(rs: seq<RobotV>, c: Coord, o: Option<nat>)
    requires o.Some? ==> o.value < |rs| && rs[o.value].coordinates == c
    requires o.Some? ==> forall k :: 0 <= k < o.value ==> rs[k].coordinates != c
    requires o.None? ==> forall k :: 0 <= k < |rs| ==> rs[k].coordinates != c
    ensures FirstAt(rs, c) == o
  {
    if rs != [] && rs[0].coordinates != c {
      var o' := match o case None => None case Some(v) => Some(v - 1);
      assert o.Some? ==> o.value > 0;
      forall k | 0 <= k < |rs[1..]|
        ensures rs[1..][k] == rs[k + 1]
      {
      }
      FirstAtIs(rs[1..], c, o');
    }
  }

  /** The scan of `state.robots` in `move`: some robot stands on `c`. */
  predicate Occupied(rs: seq<RobotV>, c: Coord)
  {
    exists k :: 0 <= k < |rs| && rs[k].coordinates == c
  }

  /** How many robots of the roster stand on the ray from `c` in direction `d`. */
  function AheadCount(rs: seq<RobotV>, c: Coord, d: Direction): nat
  {
    if rs == [] then 0
    else (if IsAhead(rs[0].coordinates, c, d) then 1 else 0) + AheadCount(rs[1..], c, d)
  }

  lemma {:induction false} AheadCountShrinks(rs: seq<RobotV>, c: Coord, d: Direction)
    ensures AheadCount(rs, Neighbour(c, d), d) <= AheadCount(rs, c, d)
  {
    if rs != [] {
      AheadCountShrinks(rs[1..], c, d);
    }
  }

  /** A robot pushed from `c` has fewer robots ahead of it than the pusher. */
  lemma {:induction false} AheadDecreases(rs: seq<RobotV>, c: Coord, d: Direction, j: nat)
    requires j < |rs| && rs[j].coordinates == Neighbour(c, d)
    ensures AheadCount(rs, rs[j].coordinates, d) < AheadCount(rs, c, d)
  {
    if j == 0 {
      AheadCountShrinks(rs[1..], c, d);
    } else {
      AheadDecreases(rs[1..], c, d, j - 1);
    }
  }

  /** `b` is `a` with at most its position changed and lives lost. */
  predicate PlaceAndLivesOnly(a: RobotV, b: RobotV)
  {
    b == a.(coordinates := b.coordinates, lives := b.lives) && b.lives <= a.lives
  }

  /** Every robot of `rs'` is its counterpart in `rs` moved, or losing lives. */
  predicate OnlyPlacesAndLives(rs: seq<RobotV>, rs': seq<RobotV>)
  {
    |rs'| == |rs| && forall k :: 0 <= k < |rs| ==> PlaceAndLivesOnly(rs[k], rs'[k])
  }

  /** The robot `i` steps onto `c` and the layers there are checked for holes. */
  function Enter(board: Board, rs: seq<RobotV>, i: nat, c: Coord): (rs': seq<RobotV>)
    requires i < |rs|
    ensures |rs'| == |rs|
  {
    rs[i := CheckHole(board, rs[i].(coordinates := c))]
  }

  /**
   * The `for` loop of `walk`: at most `n` steps of robot `i` in direction `d`,
   * stopping at the first wall. A robot that falls into a hole keeps stepping
   * from the sentinel, as the loop has no other exit.
   */
  function WalkSteps(board: Board, rs: seq<RobotV>, i: nat, n: int, d: Direction): (rs': seq<RobotV>)
    requires WellFormed(board) && i < |rs|
    ensures |rs'| == |rs|
    decreases if n < 0 then 0 else n, AheadCount(rs, rs[i].coordinates, d), 1
  {
    if n <= 0 || !CheckWall(board, rs[i].coordinates, d) then rs
    else
      var rs1 := Advance(board, rs, i, d);
      var rs' := WalkSteps(board, rs1, i, n - 1, d);
      rs'
  }

  /**
   * One step of `walk` after the wall check: a robot in the way first walks
   * one step in the same direction, and the walker enters the cell only if
   * that robot's position changed.
   */
  function Advance(board: Board, rs: seq<RobotV>, i: nat, d: Direction): (rs': seq<RobotV>)
    requires WellFormed(board) && i < |rs|
    ensures |rs'| == |rs|
    decreases 1, AheadCount(rs, rs[i].coordinates, d), 0
  {
    var next := Neighbour(rs[i].coordinates, d);
    match FirstAt(rs, next)
    case None => Enter(board, rs, i, next)
    case Some(j) =>
      AheadDecreases(rs, rs[i].coordinates, d, j);
      var rs1 := WalkSteps(board, rs, j, 1, d);
      if rs1[j].coordinates != next then Enter(board, rs1, i, next) else rs1
  }

  /** `Advance` when robot `j` stands in the way and has walked one step, giving `rs1`. */
  lemma AdvanceAfterPush(board: Board, rs: seq<RobotV>, i: nat, d: Direction, j: nat, rs1: seq<RobotV>)
    requires WellFormed(board) && i < |rs|
    requires FirstAt(rs, Neighbour(rs[i].coordinates, d)) == Some(j)
    requires rs1 == WalkSteps(board, rs, j, 1, d)
    ensures Advance(board, rs, i, d) ==
      if rs1[j].coordinates != Neighbour(rs[i].coordinates, d) then Enter(board, rs1, i, Neighbour(rs[i].coordinates, d)) else rs1
  {
  }

  /** One iteration of `walk`'s loop after the wall check. */
  lemma WalkStepsUnfold(board: Board, rs: seq<RobotV>, i: nat, n: int, d: Direction)
    requires WellFormed(board) && i < |rs| && n >= 1 && CheckWall(board, rs[i].coordinates, d)
    ensures WalkSteps(board, rs, i, n, d) == WalkSteps(board, Advance(board, rs, i, d), i, n - 1, d)
  {
  }

  /**
   * The `distance < 0` block of `walk`: the robot turns round, walks `n`
   * steps along its new facing (the direction argument is not passed on)
   * and turns back.
   */
  function WalkBack(board: Board, rs: seq<RobotV>, i: nat, n: int): (rs': seq<RobotV>)
    requires WellFormed(board) && i < |rs|
    ensures |rs'| == |rs|
  {
    var rs1 := rs[i := Rotate(rs[i], UTurn)];
    var rs2 := WalkSteps(board, rs1, i, n, rs1[i].direction);
    rs2[i := Rotate(rs2[i], UTurn)]
  }

  /**
   * `Robot.walk(distance, state, d)`: the backward block for a negative
   * distance, then the loop, which does nothing for a negative distance.
   */
  function Walk(board: Board, rs: seq<RobotV>, i: nat, distance: int, d: Direction): (rs': seq<RobotV>)
    requires WellFormed(board) && i < |rs|
    ensures |rs'| == |rs|
  {
    var rs1 := if distance < 0 then WalkBack(board, rs, i, -distance) else rs;
    WalkSteps(board, rs1, i, distance, d)
  }

  /** One iteration of `move` after the wall check: the step is skipped onto an occupied cell. */
  function Nudge(board: Board, rs: seq<RobotV>, i: nat, d: Direction): (rs': seq<RobotV>)
    requires i < |rs|
    ensures |rs'| == |rs|
  {
    var next := Neighbour(rs[i].coordinates, d);
    if Occupied(rs, next) then rs else Enter(board, rs, i, next)
  }

  /**
   * `Robot.move(direction, distance, state)`: at most `n` steps, stopping at
   * a wall; a step onto an occupied cell is skipped, and nobody is pushed.
   */
  function Move(board: Board, rs: seq<RobotV>, i: nat, d: Direction, n: int): (rs': seq<RobotV>)
    requires WellFormed(board) && i < |rs|
    ensures |rs'| == |rs|
    decreases n
  {
    if n <= 0 || !CheckWall(board, rs[i].coordinates, d) then rs
    else Move(board, Nudge(board, rs, i, d), i, d, n - 1)
  }

  /** `Robot.apply_card_effect`: the card of the current round is played. */
  function ApplyCard(board: Board, rs: seq<RobotV>, i: nat, round: int): (rs': seq<RobotV>)
    requires WellFormed(board) && i < |rs| && 1 <= round <= |rs[i].program|
    ensures |rs'| == |rs|
    ensures rs[i].program[round - 1].RotationCard? ==>
      (forall k :: 0 <= k < |rs| && k != i ==> rs'[k] == rs[k]) &&
      rs'[i] == rs[i].(direction := NewDirection(rs[i].direction, rs[i].program[round - 1].rotation))
  {
    match rs[i].program[round - 1]
    case MovementCard(_, distance) => Walk(board, rs, i, distance, rs[i].direction)
    case RotationCard(_, rotation) => rs[i := Rotate(rs[i], rotation)]
  }

  // ---------------------------------------------------------------------------
  // Tile hooks and the phases of apply_tile_effects

  /** `push_robot`: an active pusher moves the robot one cell, pushing nobody. */
  function PushTile(board: Board, t: Tile, rs: seq<RobotV>, i: nat, round: int): seq<RobotV>
    requires WellFormed(board) && i < |rs|
  {
    match t.pusher
    case None => rs
    case Some(p) => if round in p.rounds then Move(board, rs, i, p.direction, 1) else rs
  }

  /** `rotate_robot`. */
  function RotateTile(t: Tile, r: RobotV): RobotV
  {
    match t.gear
    case None => r
    case Some(where) => Rotate(r, where)
  }

  /** `shoot_robot`. */
  function ShootTile(t: Tile, r: RobotV): RobotV
  {
    match t.laser
    case None => r
    case Some(l) =>
      if r.damages + l.strength < l.fatalAt then r.(damages := r.damages + l.strength) else Die(r)
  }

  /** `collect_flag`: a flag counts only when it is the next one in order. */
  function CollectFlag(t: Tile, r: RobotV): RobotV
  {
    match t.flag
    case None => r
    case Some(number) => if r.flags == number - 1 then r.(flags := number) else r
  }

  /** `repair_robot`. */
  function RepairTile(t: Tile, r: RobotV, round: int): RobotV
  {
    if round in t.repairRounds && r.damages > 0 then r.(damages := r.damages - 1) else r
  }

  /** The four loops of `apply_tile_effects` that are implemented. */
  datatype Phase = Pushers | Gears | Lasers | FlagsAndRepair

  /** The pusher and laser loops stop consulting layers once the robot is inactive. */
  predicate StopsWhenInactive(ph: Phase)
  {
    ph == Pushers || ph == Lasers
  }

  /** The body of a phase's loop over the layers: one layer acts on robot `i`. */
  function ApplyTile(ph: Phase, board: Board, t: Tile, rs: seq<RobotV>, i: nat, round: int): (rs': seq<RobotV>)
    requires WellFormed(board) && i < |rs|
    ensures |rs'| == |rs|
  {
    match ph
    case Pushers => PushTile(board, t, rs, i, round)
    case Gears => rs[i := RotateTile(t, rs[i])]
    case Lasers => rs[i := ShootTile(t, rs[i])]
    case FlagsAndRepair => rs[i := RepairTile(t, CollectFlag(t, rs[i]), round)]
  }

  /** A phase's loop over the layers `ts` of robot `i`. */
  function Layers(ph: Phase, board: Board, rs: seq<RobotV>, i: nat, ts: seq<Tile>, round: int): (rs': seq<RobotV>)
    requires WellFormed(board) && i < |rs|
    ensures |rs'| == |rs|
    decreases |ts|
  {
    if ts == [] then rs
    else
      var rs1 := ApplyTile(ph, board, ts[0], rs, i, round);
      if StopsWhenInactive(ph) && rs1[i].Inactive() then rs1
      else Layers(ph, board, rs1, i, ts[1..], round)
  }

  /** One pass of a phase's loop over the layers `ts`. */
  lemma LayersUnfold(ph: Phase, board: Board, rs: seq<RobotV>, i: nat, ts: seq<Tile>, round: int)
    requires WellFormed(board) && i < |rs| && ts != []
    ensures Layers(ph, board, rs, i, ts, round) ==
      var rs1 := ApplyTile(ph, board, ts[0], rs, i, round);
      if StopsWhenInactive(ph) && rs1[i].Inactive() then rs1 else Layers(ph, board, rs1, i, ts[1..], round)
  {
  }

  /** Every index of `idx` is below `n`. */
  predicate AllBelow(idx: seq<nat>, n: nat)
  {
    idx == [] || (idx[0] < n && AllBelow(idx[1..], n))
  }

  /** The indices of the active robots among `rs[k..]`, in roster order. */
  function ActiveFrom(rs: seq<RobotV>, k: nat): (idx: seq<nat>)
    ensures AllBelow(idx, |rs|)
    decreases |rs| - k
  {
    if k >= |rs| then []
    else
      var rest := ActiveFrom(rs, k + 1);
      if rs[k].Inactive() then rest
      else
        assert ([k] + rest)[1..] == rest;
        [k] + rest
  }

  /** The indices of the active robots, in roster order. */
  function ActiveIndices(rs: seq<RobotV>): (idx: seq<nat>)
    ensures AllBelow(idx, |rs|)
  {
    ActiveFrom(rs, 0)
  }

  /** A phase's outer loop over the robots `idx`, each over its current layers. */
  function Each(ph: Phase, board: Board, rs: seq<RobotV>, idx: seq<nat>, round: int): (rs': seq<RobotV>)
    requires WellFormed(board) && AllBelow(idx, |rs|)
    ensures |rs'| == |rs|
    decreases |idx|
  {
    if idx == [] then rs
    else
      var rs1 := Layers(ph, board, rs, idx[0], GetTiles(board, rs[idx[0]].coordinates), round);
      Each(ph, board, rs1, idx[1..], round)
  }

  /** The first robot of `idx` runs over its layers, then the rest follow. */
  lemma EachUnfold(ph: Phase, board: Board, rs: seq<RobotV>, idx: seq<nat>, round: int)
    requires WellFormed(board) && idx != [] && AllBelow(idx, |rs|)
    ensures Each(ph, board, rs, idx, round) ==
      Each(ph, board, Layers(ph, board, rs, idx[0], GetTiles(board, rs[idx[0]].coordinates), round), idx[1..], round)
  {
  }

  /** One phase: the robots active when it begins, in roster order. */
  function RunPhase(ph: Phase, board: Board, rs: seq<RobotV>, round: int): seq<RobotV>
    requires WellFormed(board)
  {
    Each(ph, board, rs, ActiveIndices(rs), round)
  }

  /** `apply_tile_effects`. */
  function ApplyTileEffects(board: Board, rs: seq<RobotV>, round: int): seq<RobotV>
    requires WellFormed(board)
  {
    var rs1 := RunPhase(Pushers, board, rs, round);
    var rs2 := RunPhase(Gears, board, rs1, round);
    var rs3 := RunPhase(Lasers, board, rs2, round);
    var rs4 := RunPhase(FlagsAndRepair, board, rs3, round);
    if round == 5 then NewTurn(rs4) else rs4
  }

  // ---------------------------------------------------------------------------
  // The end of a five-round cycle

  /** The robots with lives left, in roster order. */
  function Survivors(rs: seq<RobotV>): seq<RobotV>
  {
    if rs == [] then []
    else
      var n := |rs| - 1;
      Survivors(rs[..n]) + (if rs[n].lives > 0 then [rs[n]] else [])
  }

  /** An inactive robot restarts on its starting cell, facing north, undamaged. */
  function Respawn(r: RobotV): RobotV
  {
    if r.Inactive() then r.(coordinates := r.startCoordinates, damages := 0, direction := N) else r
  }

  /** The loop of `set_robots_for_new_turn` over the kept robots. */
  function RespawnAll(rs: seq<RobotV>): (rs': seq<RobotV>)
    ensures |rs'| == |rs|
  {
    seq(|rs|, m requires 0 <= m < |rs| => Respawn(rs[m]))
  }

  /** `set_robots_for_new_turn`. */
  function NewTurn(rs: seq<RobotV>): seq<RobotV>
  {
    RespawnAll(Survivors(rs))
  }

  // ---------------------------------------------------------------------------
  // Starting squares

  /** The image path of starting square number `i`. */
  function StartPath(i: nat): string
    requires i < 9
  {
    "./img/squares/png/starting_square0" + [(48 + i) as char] + ".png"
  }

  /** How many of the paths `StartPath(0)`..`StartPath(n - 1)` the layer `t` carries. */
  function StartMatches(t: Tile, n: nat): nat
    requires n <= 9
  {
    if n == 0 then 0
    else StartMatches(t, n - 1) + (if t.path == StartPath(n - 1) then 1 else 0)
  }

  /** The layer is a starting square. */
  predicate IsStartingSquare(t: Tile)
  {
    exists i :: 0 <= i < 9 && t.path == StartPath(i)
  }

  /** How many layers of the stack `ts` are starting squares. */
  function StartingLayers(ts: seq<Tile>): nat
  {
    if ts == [] then 0
    else
      var n := |ts| - 1;
      StartingLayers(ts[..n]) + (if IsStartingSquare(ts[n]) then 1 else 0)
  }

  /** `n` copies of the coordinate `c`. */
  function Repeat(c: Coord, n: nat): (cs: seq<Coord>)
    ensures |cs| == n
  {
    if n == 0 then [] else Repeat(c, n - 1) + [c]
  }

  /** The columns of the board's cells. */
  function Columns(board: Board): set<int>
  {
    set c | c in board :: c.0
  }

  /** The rows of the board's cells. */
  function Rows(board: Board): set<int>
  {
    set c | c in board :: c.1
  }

  /** The nine starting-square paths differ, so a layer carries at most one of them. */
  lemma {:induction false} StartMatchesOnce(t: Tile, n: nat)
    requires n <= 9
    ensures StartMatches(t, n) == if exists i :: 0 <= i < n && t.path == StartPath(i) then 1 else 0
  {
    if n > 0 {
      StartMatchesOnce(t, n - 1);
      if t.path == StartPath(n - 1) {
        forall i | 0 <= i < n - 1
          ensures t.path != StartPath(i)
        {
          assert StartPath(i)[34] != StartPath(n - 1)[34];
        }
      }
    }
  }

  /** `n` copies of `c` count `n` times for `c` and never for another coordinate. */
  lemma {:induction false} RepeatMultiset(c: Coord, n: nat)
    ensures multiset(Repeat(c, n)) == multiset{}[c := n]
  {
    if n > 0 {
      RepeatMultiset(c, n - 1);
      assert multiset(Repeat(c, n)) == multiset(Repeat(c, n - 1)) + multiset{c};
    }
  }
}
