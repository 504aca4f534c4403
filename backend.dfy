/**
 * backend.py's classes: `Robot` objects whose fields the engine updates in
 * place, and the `State` that holds the board, the roster and the round.
 * Every method is proved to change the roster exactly as the corresponding
 * function of module Rules says, read through `Values(state.robots)`. Ghost
 * index parameters name the robot's position in the roster.
 */
module Backend {
  import opened Util
  import Rules

  /** The roster holds each robot object once. */
  ghost predicate Distinct(rs: seq<Robot>)
  {
    rs == [] || (rs[0] !in rs[1..] && Distinct(rs[1..]))
  }

  lemma {:induction false} DistinctApart(rs: seq<Robot>, k: nat, k': nat)
    requires Distinct(rs) && k < k' < |rs|
    ensures rs[k] != rs[k']
  {
    if k == 0 {
      assert rs[k'] == rs[1..][k' - 1];
    } else {
      DistinctApart(rs[1..], k - 1, k' - 1);
    }
  }

  /** A robot not yet in a roster without repeats can be appended to it. */
  lemma {:induction false} DistinctAppend(rs: seq<Robot>, r: Robot)
    requires Distinct(rs) && r !in rs
    ensures Distinct(rs + [r])
  {
    if rs != [] {
      assert (rs + [r])[1..] == rs[1..] + [r];
      DistinctAppend(rs[1..], r);
    }
  }

  /** In a roster without repeats, the robot at `k` is not among those before it. */
  lemma DistinctPrefix(rs: seq<Robot>, k: nat)
    requires Distinct(rs) && k < |rs|
    ensures rs[k] !in rs[..k]
  {
    if rs[k] in rs[..k] {
      var j :| 0 <= j < k && rs[..k][j] == rs[k];
      DistinctApart(rs, j, k);
    }
  }

  /** The fields of the robots `rs`, in order. */
  function Values(rs: seq<Robot>): (vs: seq<Rules.RobotV>)
    reads rs
    ensures |vs| == |rs|
  {
    seq(|rs|, k reads rs requires 0 <= k < |rs| => rs[k].Value())
  }

  lemma ValuesAt(rs: seq<Robot>, k: nat)
    requires k < |rs|
    ensures Values(rs)[k] == rs[k].Value()
  {
  }

  /** In a roster without repeats, no other entry is the robot at `i`. */
  lemma {:induction false} OthersDiffer(rs: seq<Robot>, i: nat)
    requires Distinct(rs) && i < |rs|
    ensures forall k :: 0 <= k < |rs| && k != i ==> rs[k] != rs[i]
  {
    forall k | 0 <= k < |rs| && k != i
      ensures rs[k] != rs[i]
    {
      if k < i {
        DistinctApart(rs, k, i);
      } else {
        DistinctApart(rs, i, k);
      }
    }
  }

  lemma ValuesAppend(rs: seq<Robot>, r: Robot)
    ensures Values(rs + [r]) == Values(rs) + [r.Value()]
  {
  }

  /** After a change to robot `i` alone, the snapshot differs from `before` at `i` only. */
  lemma ValuesUpdate(rs: seq<Robot>, i: nat, before: seq<Rules.RobotV>)
    requires i < |rs| == |before|
    requires forall k :: 0 <= k < |rs| && k != i ==> rs[k].Value() == before[k]
    ensures Values(rs) == before[i := rs[i].Value()]
  {
  }

  /** The measure of `walk`'s recursion: negative distances first turn round. */
  function WalkTier(distance: int): nat
  {
    if distance < 0 then 2 else if distance == 1 then 0 else 1
  }

  class Robot {
    var direction: Direction
    var coordinates: Coord
    const startCoordinates: Coord
    var program: seq<Rules.Card>
    var lives: int
    var flags: int
    var damages: int

    /** `Robot.__init__`, with the program backend.py installs for testing. */
    constructor (direction: Direction, coordinates: Coord)
      ensures this.direction == direction && this.coordinates == coordinates
      ensures startCoordinates == coordinates
      ensures program == [Rules.RotationCard(200, Left), Rules.MovementCard(100, 2)]
      ensures lives == 3 && flags == 0 && damages == 4
    {
      this.direction := direction;
      this.coordinates := coordinates;
      this.startCoordinates := coordinates;
      this.program := [Rules.RotationCard(200, Left), Rules.MovementCard(100, 2)];
      this.lives := 3;
      this.flags := 0;
      this.damages := 4;
    }

    /** The robot's fields as a value. */
    function Value(): Rules.RobotV
      reads this
    {
      Rules.RobotV(direction, coordinates, startCoordinates, program, lives, flags, damages)
    }

    /** `Robot.inactive`: the robot stands on the sentinel cell, off the board. */
    predicate Inactive()
      reads this
      ensures Inactive() == Value().Inactive()
    {
      coordinates == Sentinel
    }

    /** `Robot.die`. */
    method Die()
      modifies this
      ensures Value() == Rules.Die(old(Value()))
      ensures Inactive() && lives == old(lives) - 1
    {
      lives := lives - 1;
      coordinates := Sentinel;
    }

    /** `Robot.rotate`. */
    method Rotate(whereTo: Rotation)
      modifies this
      ensures Value() == Rules.Rotate(old(Value()), whereTo)
    {
      direction := NewDirection(direction, whereTo);
    }

    /** `Robot.check_hole`. */
    method CheckHole(state: State)
      modifies this
      ensures Value() == Rules.CheckHole(state.board, old(Value()))
    {
      var tiles := Rules.GetTiles(state.board, coordinates);
      ghost var r0 := Value();
      var t := 0;
      while t < |tiles|
        invariant 0 <= t <= |tiles|
        invariant Rules.KillLayers(r0, tiles) == Rules.KillLayers(Value(), tiles[t..])
      {
        assert tiles[t..][1..] == tiles[t + 1..];
        KillRobot(tiles[t], this);
        if Inactive() {
          break;
        }
        t := t + 1;
      }
    }

    /**
     * `Robot.walk(distance, state, direction)`; the caller passes the robot's
     * own facing where backend.py uses the default.
     */
    method Walk(distance: int, state: State, direction: Direction, ghost i: nat)
      requires state.Valid() && i < |state.robots| && state.robots[i] == this
      modifies state.robots
      ensures Values(state.robots) ==
        Rules.Walk(state.board, old(Values(state.robots)), i, distance, direction)
      ensures distance >= 0 ==>
        Values(state.robots) ==
        Rules.WalkSteps(state.board, old(Values(state.robots)), i, distance, direction)
      decreases WalkTier(distance), Rules.AheadCount(Values(state.robots), coordinates, direction), 3
    {
      if distance < 0 {
        WalkBack(-distance, state, i);
      }
      WalkLoop(distance, state, direction, i);
    }

    /** The `distance < 0` block of `walk`: turn round, walk `n` steps, turn back. */
    method WalkBack(n: int, state: State, ghost i: nat)
      requires state.Valid() && i < |state.robots| && state.robots[i] == this && n > 0
      modifies state.robots
      ensures Values(state.robots) == Rules.WalkBack(state.board, old(Values(state.robots)), i, n)
      decreases 2, 0, 0
    {
      Turn(UTurn, state, i);
      ghost var rs1 := Values(state.robots);
      Walk(n, state, this.direction, i);
      assert Values(state.robots) == Rules.WalkSteps(state.board, rs1, i, n, rs1[i].direction);
      Turn(UTurn, state, i);
    }

    /** `rotate`, seen in the roster: only this robot's facing changes. */
    method Turn(whereTo: Rotation, state: State, ghost i: nat)
      requires state.Valid() && i < |state.robots| && state.robots[i] == this
      modifies this
      ensures Values(state.robots) ==
        old(Values(state.robots))[i := Rules.Rotate(old(Value()), whereTo)]
    {
      ghost var rs0 := Values(state.robots);
      OthersDiffer(state.robots, i);
      Rotate(whereTo);
      ValuesUpdate(state.robots, i, rs0);
    }

    /** The `for` loop of `walk`: at most `distance` steps, stopping at a wall. */
    method WalkLoop(distance: int, state: State, direction: Direction, ghost i: nat)
      requires state.Valid() && i < |state.robots| && state.robots[i] == this
      modifies state.robots
      ensures Values(state.robots) ==
        Rules.WalkSteps(state.board, old(Values(state.robots)), i, distance, direction)
      decreases if distance < 0 then 0 else WalkTier(distance), Rules.AheadCount(Values(state.robots), coordinates, direction), 1
    {
      ghost var rs0 := Values(state.robots);
      ghost var c0 := coordinates;
      ghost var goal := Rules.WalkSteps(state.board, rs0, i, distance, direction);
      var step := 0;
      while step < distance
        invariant 0 <= step && (distance >= 0 ==> step <= distance)
        invariant goal == Rules.WalkSteps(state.board, Values(state.robots), i, distance - step, direction)
        invariant step == 0 ==> Values(state.robots) == rs0 && coordinates == c0
        decreases distance - step
      {
        if !Rules.CheckWall(state.board, coordinates, direction) {
          break;
        }
        WalkStep(state, direction, i, distance - step);
        step := step + 1;
      }
    }

    /** One pass of the loop in `walk`, once the wall check has let the robot go. */
    method WalkStep(state: State, direction: Direction, ghost i: nat, ghost n: int)
      requires state.Valid() && i < |state.robots| && state.robots[i] == this && n >= 1
      requires Rules.CheckWall(state.board, coordinates, direction)
      modifies state.robots
      ensures Rules.WalkSteps(state.board, old(Values(state.robots)), i, n, direction) ==
        Rules.WalkSteps(state.board, Values(state.robots), i, n - 1, direction)
      decreases 0, Rules.AheadCount(Values(state.robots), coordinates, direction), 0
    {
      ghost var cur := Values(state.robots);
      ValuesAt(state.robots, i);
      var next := Neighbour(coordinates, direction);
      var inTheWay := RobotAt(state, next);
      if inTheWay.Some? {
        var robot := state.robots[inTheWay.value];
        Rules.AheadDecreases(cur, coordinates, direction, inTheWay.value);
        robot.Walk(1, state, direction, inTheWay.value);
        Rules.AdvanceAfterPush(state.board, cur, i, direction, inTheWay.value, Values(state.robots));
        ValuesAt(state.robots, inTheWay.value);
        if robot.coordinates != next {
          EnterCell(next, state, i);
        }
      } else {
        EnterCell(next, state, i);
      }
      assert Values(state.robots) == Rules.Advance(state.board, cur, i, direction);
      Rules.WalkStepsUnfold(state.board, cur, i, n, direction);
    }

    /** `Robot.move(direction, distance, state)`: being moved by the board. */
    method Move(direction: Direction, distance: int, state: State, ghost i: nat)
      requires state.Valid() && i < |state.robots| && state.robots[i] == this
      modifies this
      ensures Values(state.robots) ==
        Rules.Move(state.board, old(Values(state.robots)), i, direction, distance)
    {
      ghost var goal := Rules.Move(state.board, Values(state.robots), i, direction, distance);
      ghost var vs := Values(state.robots);
      var step := 0;
      while step < distance
        invariant 0 <= step && (distance >= 0 ==> step <= distance)
        invariant Values(state.robots) == vs && i < |vs|
        invariant goal == Rules.Move(state.board, vs, i, direction, distance - step)
        decreases distance - step
      {
        if !Rules.CheckWall(state.board, coordinates, direction) {
          break;
        }
        MoveStep(direction, state, i);
        vs := Rules.Nudge(state.board, vs, i, direction);
        step := step + 1;
      }
    }

    /** One pass of the loop in `move`, once the wall check has let the robot go. */
    method MoveStep(direction: Direction, state: State, ghost i: nat)
      requires state.Valid() && i < |state.robots| && state.robots[i] == this
      modifies this
      ensures Values(state.robots) ==
        Rules.Nudge(state.board, old(Values(state.robots)), i, direction)
    {
      var next := Neighbour(coordinates, direction);
      var inTheWay := RobotAt(state, next);
      var robotCheck := inTheWay.None?;
      if robotCheck {
        EnterCell(next, state, i);
      }
    }

    /** `self.coordinates = next; self.check_hole(state)`, shared by `walk` and `move`. */
    method EnterCell(next: Coord, state: State, ghost i: nat)
      requires state.Valid() && i < |state.robots| && state.robots[i] == this
      modifies this
      ensures Values(state.robots) ==
        Rules.Enter(state.board, old(Values(state.robots)), i, next)
    {
      ghost var rs0 := Values(state.robots);
      OthersDiffer(state.robots, i);
      coordinates := next;
      CheckHole(state);
      ValuesUpdate(state.robots, i, rs0);
    }

    /** `Robot.apply_card_effect`: play the card of the current round. */
    method ApplyCardEffect(state: State, ghost i: nat)
      requires state.Valid() && i < |state.robots| && state.robots[i] == this
      requires 1 <= state.gameRound <= |program|
      modifies state.robots
      ensures Values(state.robots) ==
        Rules.ApplyCard(state.board, old(Values(state.robots)), i, state.gameRound)
    {
      ghost var rs0 := Values(state.robots);
      ValuesAt(state.robots, i);
      var currentCard := program[state.gameRound - 1];
      assert rs0[i].program[state.gameRound - 1] == currentCard;
      match currentCard
      case MovementCard(_, distance) =>
        Walk(distance, state, direction, i);
      case RotationCard(_, rotation) =>
        Turn(rotation, state, i);
    }

    /** One layer's hook of phase `ph` acting on this robot. */
    method ApplyTileTo(ph: Rules.Phase, t: Tile, state: State, ghost i: nat)
      requires state.Valid() && i < |state.robots| && state.robots[i] == this
      modifies this
      ensures Values(state.robots) ==
        Rules.ApplyTile(ph, state.board, t, old(Values(state.robots)), i, state.gameRound)
    {
      ghost var rs0 := Values(state.robots);
      OthersDiffer(state.robots, i);
      match ph
      case Pushers =>
        PushRobot(t, this, state, i);
      case Gears =>
        RotateRobot(t, this);
        ValuesUpdate(state.robots, i, rs0);
      case Lasers =>
        ShootRobot(t, this);
        ValuesUpdate(state.robots, i, rs0);
      case FlagsAndRepair =>
        CollectFlag(t, this);
        RepairRobot(t, this, state);
        ValuesUpdate(state.robots, i, rs0);
    }

    /**
     * A phase's loop over the layers under this robot, read when its turn
     * begins; the pusher and laser loops break once the robot is inactive.
     */
    method ApplyLayers(ph: Rules.Phase, state: State, ghost i: nat)
      requires state.Valid() && i < |state.robots| && state.robots[i] == this
      modifies this
      ensures Values(state.robots) ==
        Rules.Layers(ph, state.board, old(Values(state.robots)), i, Rules.GetTiles(state.board, old(coordinates)), state.gameRound)
    {
      var tiles := Rules.GetTiles(state.board, coordinates);
      ghost var goal := Rules.Layers(ph, state.board, Values(state.robots), i, tiles, state.gameRound);
      var t := 0;
      while t < |tiles|
        invariant 0 <= t <= |tiles|
        invariant goal == Rules.Layers(ph, state.board, Values(state.robots), i, tiles[t..], state.gameRound)
      {
        assert tiles[t..][1..] == tiles[t + 1..];
        Rules.LayersUnfold(ph, state.board, Values(state.robots), i, tiles[t..], state.gameRound);
        ApplyTileTo(ph, tiles[t], state, i);
        ValuesAt(state.robots, i);
        if Rules.StopsWhenInactive(ph) && Inactive() {
          break;
        }
        t := t + 1;
      }
    }
  }

  /** The scan of `state.robots` in `walk` and `move`: the first robot on `c`. */
  method RobotAt(state: State, c: Coord) returns (found: Option<nat>)
    ensures found == Rules.FirstAt(Values(state.robots), c)
    ensures found.None? <==> !Rules.Occupied(Values(state.robots), c)
  {
    found := None;
    var k := 0;
    while k < |state.robots|
      invariant 0 <= k <= |state.robots|
      invariant forall m :: 0 <= m < k ==> state.robots[m].coordinates != c
    {
      if state.robots[k].coordinates == c {
        found := Some(k);
        break;
      }
      k := k + 1;
    }
    Rules.FirstAtIs(Values(state.robots), c, found);
  }

  class State {
    const board: Rules.Board
    var robots: seq<Robot>
    const sizes: (int, int)
    var gameRound: int

    /** `State.__init__`: the game starts in round 1. */
    constructor (board: Rules.Board, robots: seq<Robot>, sizes: (int, int))
      ensures this.board == board && this.robots == robots && this.sizes == sizes
      ensures gameRound == 1
      ensures Rules.WellFormed(board) && Distinct(robots) ==> Valid()
    {
      this.board := board;
      this.robots := robots;
      this.sizes := sizes;
      this.gameRound := 1;
    }

    /** Every cell holds a layer and every robot appears in the roster once. */
    ghost predicate Valid()
      reads this
    {
      Rules.WellFormed(board) && Distinct(robots)
    }
  }

  // ---------------------------------------------------------------------------
  // The tile hooks the engine calls

  /** `kill_robot`. */
  method KillRobot(t: Tile, robot: Robot)
    modifies robot
    ensures robot.Value() == Rules.Kill(t, old(robot.Value()))
  {
    if t.hole {
      robot.Die();
    }
  }

  /** `push_robot`: an active pusher moves the robot without pushing. */
  method PushRobot(t: Tile, robot: Robot, state: State, ghost i: nat)
    requires state.Valid() && i < |state.robots| && state.robots[i] == robot
    modifies robot
    ensures Values(state.robots) ==
      Rules.PushTile(state.board, t, old(Values(state.robots)), i, state.gameRound)
  {
    match t.pusher
    case None =>
    case Some(p) =>
      if state.gameRound in p.rounds {
        robot.Move(p.direction, 1, state, i);
      }
  }

  /** `rotate_robot`. */
  method RotateRobot(t: Tile, robot: Robot)
    modifies robot
    ensures robot.Value() == Rules.RotateTile(t, old(robot.Value()))
  {
    match t.gear
    case None =>
    case Some(where) => robot.Rotate(where);
  }

  /** `shoot_robot`. */
  method ShootRobot(t: Tile, robot: Robot)
    modifies robot
    ensures robot.Value() == Rules.ShootTile(t, old(robot.Value()))
  {
    match t.laser
    case None =>
    case Some(l) =>
      if robot.damages + l.strength < l.fatalAt {
        robot.damages := robot.damages + l.strength;
      } else {
        robot.Die();
      }
  }

  /** `collect_flag`. */
  method CollectFlag(t: Tile, robot: Robot)
    modifies robot
    ensures robot.Value() == Rules.CollectFlag(t, old(robot.Value()))
  {
    match t.flag
    case None =>
    case Some(number) =>
      if robot.flags == number - 1 {
        robot.flags := number;
      }
  }

  /** `repair_robot`. */
  method RepairRobot(t: Tile, robot: Robot, state: State)
    modifies robot
    ensures robot.Value() == Rules.RepairTile(t, old(robot.Value()), state.gameRound)
  {
    if state.gameRound in t.repairRounds && robot.damages > 0 {
      robot.damages := robot.damages - 1;
    }
  }

  // ---------------------------------------------------------------------------
  // apply_tile_effects and the end of a cycle

  /** The list of the robots active when a phase begins, with their positions. */
  method ActiveRobots(state: State) returns (active: seq<Robot>, ghost idx: seq<nat>)
    ensures idx == Rules.ActiveIndices(Values(state.robots))
    ensures |active| == |idx|
    ensures forall m :: 0 <= m < |idx| ==> idx[m] < |state.robots| && active[m] == state.robots[idx[m]]
  {
    ghost var vs := Values(state.robots);
    active := [];
    idx := [];
    var k := 0;
    while k < |state.robots|
      invariant 0 <= k <= |state.robots|
      invariant idx + Rules.ActiveFrom(vs, k) == Rules.ActiveIndices(vs)
      invariant |active| == |idx|
      invariant forall m :: 0 <= m < |idx| ==> idx[m] < k && active[m] == state.robots[idx[m]]
    {
      ValuesAt(state.robots, k);
      if !state.robots[k].Inactive() {
        assert (idx + [k]) + Rules.ActiveFrom(vs, k + 1) == idx + Rules.ActiveFrom(vs, k);
        active := active + [state.robots[k]];
        idx := idx + [k];
      }
      k := k + 1;
    }
    assert idx + [] == idx;
  }

  /** One of the four phase loops of `apply_tile_effects`. */
  method ApplyPhase(ph: Rules.Phase, state: State)
    requires state.Valid()
    modifies state.robots
    ensures Values(state.robots) == Rules.RunPhase(ph, state.board, old(Values(state.robots)), state.gameRound)
  {
    ghost var goal := Rules.RunPhase(ph, state.board, Values(state.robots), state.gameRound);
    var active;
    ghost var idx;
    active, idx := ActiveRobots(state);
    var m := 0;
    while m < |active|
      invariant 0 <= m <= |active| == |idx|
      invariant Rules.AllBelow(idx[m..], |state.robots|)
      invariant goal == Rules.Each(ph, state.board, Values(state.robots), idx[m..], state.gameRound)
    {
      assert idx[m..][0] == idx[m];
      PhaseStep(ph, active[m], state, idx[m..]);
      assert idx[m..][1..] == idx[m + 1..];
      m := m + 1;
    }
  }

  /** One pass of a phase's loop over the robots: `robot`, the first of `rest`, runs over its layers. */
  method PhaseStep(ph: Rules.Phase, robot: Robot, state: State, ghost rest: seq<nat>)
    requires state.Valid() && rest != [] && Rules.AllBelow(rest, |state.robots|)
    requires state.robots[rest[0]] == robot
    modifies robot
    ensures Values(state.robots) == Rules.Layers(ph, state.board, old(Values(state.robots)), rest[0],
      Rules.GetTiles(state.board, old(Values(state.robots))[rest[0]].coordinates), state.gameRound)
    ensures Rules.Each(ph, state.board, old(Values(state.robots)), rest, state.gameRound) ==
      Rules.Each(ph, state.board, Values(state.robots), rest[1..], state.gameRound)
  {
    Rules.EachUnfold(ph, state.board, Values(state.robots), rest, state.gameRound);
    ValuesAt(state.robots, rest[0]);
    robot.ApplyLayers(ph, state, rest[0]);
  }

  /** `apply_tile_effects`: the four phases, then the purge after round 5. */
  method ApplyTileEffects(state: State)
    requires state.Valid()
    modifies state, state.robots
    ensures state.Valid() && state.gameRound == old(state.gameRound)
    ensures Values(state.robots) == Rules.ApplyTileEffects(state.board, old(Values(state.robots)), state.gameRound)
    ensures old(state.gameRound) != 5 ==> state.robots == old(state.robots)
    ensures forall m :: 0 <= m < |state.robots| ==> state.robots[m] in old(state.robots)
  {
    ApplyPhase(Rules.Pushers, state);
    ApplyPhase(Rules.Gears, state);
    ApplyPhase(Rules.Lasers, state);
    ApplyPhase(Rules.FlagsAndRepair, state);
    if state.gameRound == 5 {
      SetRobotsForNewTurn(state);
    }
  }

  /** `set_robots_for_new_turn`: drop the robots without lives, reboot the inactive ones. */
  method SetRobotsForNewTurn(state: State)
    requires state.Valid()
    modifies state, state.robots
    ensures state.Valid() && state.gameRound == old(state.gameRound)
    ensures Values(state.robots) == Rules.NewTurn(old(Values(state.robots)))
    ensures forall m :: 0 <= m < |state.robots| ==> state.robots[m] in old(state.robots)
  {
    var kept := AliveRobots(state.robots);
    state.robots := kept;
    RebootInactive(kept);
  }

  /** The list `[robot for robot in state.robots if robot.lives > 0]`. */
  method AliveRobots(robots: seq<Robot>) returns (kept: seq<Robot>)
    ensures Values(kept) == Rules.Survivors(Values(robots))
    ensures Distinct(robots) ==> Distinct(kept)
    ensures forall m :: 0 <= m < |kept| ==> kept[m] in robots
  {
    ghost var rs0 := Values(robots);
    kept := [];
    var k := 0;
    while k < |robots|
      invariant 0 <= k <= |robots|
      invariant Values(kept) == Rules.Survivors(rs0[..k])
      invariant Distinct(robots) ==> Distinct(kept)
      invariant forall m :: 0 <= m < |kept| ==> kept[m] in robots[..k]
    {
      ValuesAt(robots, k);
      assert rs0[..k + 1][..k] == rs0[..k];
      assert robots[..k + 1] == robots[..k] + [robots[k]];
      if robots[k].lives > 0 {
        if Distinct(robots) {
          DistinctPrefix(robots, k);
          DistinctAppend(kept, robots[k]);
        }
        ValuesAppend(kept, robots[k]);
        kept := kept + [robots[k]];
      }
      k := k + 1;
    }
    assert rs0[..k] == rs0;
    assert robots[..k] == robots;
  }

  /** The loop of `set_robots_for_new_turn`: an inactive robot restarts on its starting cell. */
  method RebootInactive(robots: seq<Robot>)
    requires Distinct(robots)
    modifies robots
    ensures Values(robots) == Rules.RespawnAll(old(Values(robots)))
  {
    ghost var rs0 := Values(robots);
    forall p | 0 <= p < |robots|
      ensures robots[p].Value() == rs0[p]
    {
      ValuesAt(robots, p);
    }
    var m := 0;
    while m < |robots|
      invariant 0 <= m <= |robots|
      invariant forall p :: 0 <= p < |robots| ==>
        robots[p].Value() == if p < m then Rules.Respawn(rs0[p]) else rs0[p]
    {
      var robot := robots[m];
      OthersDiffer(robots, m);
      if robot.Inactive() {
        robot.coordinates := robot.startCoordinates;
        robot.damages := 0;
        robot.direction := N;
      }
      m := m + 1;
    }
    forall p | 0 <= p < |robots|
      ensures Values(robots)[p] == Rules.RespawnAll(rs0)[p]
    {
      ValuesAt(robots, p);
    }
  }

  // ---------------------------------------------------------------------------
  // Board queries

  /** `get_starting_coordinates`: each cell once per starting-square layer on it. */
  method GetStartingCoordinates(board: Rules.Board) returns (coords: seq<Coord>)
    ensures forall c :: multiset(coords)[c] == if c in board then Rules.StartingLayers(board[c]) else 0
  {
    coords := [];
    var remaining := board.Keys;
    while remaining != {}
      invariant remaining <= board.Keys
      invariant forall c :: multiset(coords)[c] == if c in board && c !in remaining then Rules.StartingLayers(board[c]) else 0
      decreases |remaining|
    {
      var c :| c in remaining;
      ghost var before := coords;
      coords := AppendStartingLayers(coords, c, board[c]);
      Rules.RepeatMultiset(c, Rules.StartingLayers(board[c]));
      remaining := remaining - {c};
    }
  }

  /** The loop of `get_starting_coordinates` over the layers `tiles` of the cell `c`. */
  method AppendStartingLayers(coords: seq<Coord>, c: Coord, tiles: seq<Tile>) returns (coords': seq<Coord>)
    ensures coords' == coords + Rules.Repeat(c, Rules.StartingLayers(tiles))
  {
    coords' := coords;
    var t := 0;
    while t < |tiles|
      invariant 0 <= t <= |tiles|
      invariant coords' == coords + Rules.Repeat(c, Rules.StartingLayers(tiles[..t]))
    {
      coords' := AppendIfStartingSquare(coords', c, tiles[t]);
      assert tiles[..t + 1][..t] == tiles[..t];
      t := t + 1;
    }
    assert tiles[..t] == tiles;
  }

  /** The innermost loop of `get_starting_coordinates`: the nine starting-square paths. */
  method AppendIfStartingSquare(coords: seq<Coord>, c: Coord, tile: Tile) returns (coords': seq<Coord>)
    ensures coords' == if Rules.IsStartingSquare(tile) then coords + [c] else coords
  {
    coords' := coords;
    var i := 0;
    while i < 9
      invariant 0 <= i <= 9
      invariant coords' == coords + Rules.Repeat(c, Rules.StartMatches(tile, i))
    {
      if tile.path == Rules.StartPath(i) {
        coords' := coords' + [c];
      }
      i := i + 1;
    }
    Rules.StartMatchesOnce(tile, 9);
  }

  /** `get_tile_count`: how many distinct columns and rows the board's cells use. */
  method GetTileCount(board: Rules.Board) returns (count: (int, int))
    ensures count == (|Rules.Columns(board)|, |Rules.Rows(board)|)
  {
    var xSet: set<int> := {};
    var ySet: set<int> := {};
    var remaining := board.Keys;
    while remaining != {}
      invariant remaining <= board.Keys
      invariant xSet == set c | c in board && c !in remaining :: c.0
      invariant ySet == set c | c in board && c !in remaining :: c.1
      decreases |remaining|
    {
      var c :| c in remaining;
      var (x, y) := c;
      xSet := xSet + {x};
      ySet := ySet + {y};
      remaining := remaining - {c};
    }
    assert xSet == Rules.Columns(board);
    assert ySet == Rules.Rows(board);
    count := (|xSet|, |ySet|);
  }
}
