/**
 * What the turn engine promises, proved about the functions of module Rules:
 * wall checks, holes, what walking, pushing and being moved may change, the
 * phases of apply_tile_effects and the end-of-cycle purge.
 */
module Properties {
  import opened Util
  import opened Rules

  // ---------------------------------------------------------------------------
  // Directions

  /** A U-turn reverses a step, and turning left undoes turning right. */
  lemma TurnsUndo(c: Coord, d: Direction)
    ensures Neighbour(Neighbour(c, d), NewDirection(d, UTurn)) == c
    ensures NewDirection(NewDirection(d, Right), Left) == d
    ensures NewDirection(NewDirection(d, UTurn), UTurn) == d
  {
  }

  /** `s + 1` steps from `c` are `s` steps from its neighbour. */
  lemma ShiftNext(c: Coord, d: Direction, s: nat)
    ensures Shift(Neighbour(c, d), d, s) == Shift(c, d, s + 1)
  {
  }

  // ---------------------------------------------------------------------------
  // Robots off the board

  /** `die` costs exactly one life, without a floor, and takes the robot off the board. */
  lemma DieEffect(r: RobotV)
    ensures Die(r).Inactive() && Die(r).lives == r.lives - 1
    ensures Die(r).direction == r.direction && Die(r).flags == r.flags && Die(r).damages == r.damages
    ensures Die(r).startCoordinates == r.startCoordinates && Die(r).program == r.program
  {
  }

  // ---------------------------------------------------------------------------
  // Wall checks

  /** No wall stands between two cells that are both off the board. */
  lemma OffBoardNoWall(board: Board, c: Coord, d: Direction)
    requires c !in board && Neighbour(c, d) !in board
    ensures CheckWall(board, c, d)
  {
  }

  // ---------------------------------------------------------------------------
  // Holes

  /** Some layer of the stack is a hole. */
  predicate HasHole(ts: seq<Tile>)
  {
    exists k :: 0 <= k < |ts| && ts[k].hole
  }

  /**
   * `check_hole` on an active robot: it dies exactly when some layer is a
   * hole, and then only once, since the loop stops at the first hole.
   */
  lemma {:induction false} KillLayersIff(r: RobotV, ts: seq<Tile>)
    requires !r.Inactive()
    ensures KillLayers(r, ts) == if HasHole(ts) then Die(r) else r
  {
    if ts != [] && !ts[0].hole {
      KillLayersIff(r, ts[1..]);
      assert HasHole(ts) <==> HasHole(ts[1..]) by {
        if HasHole(ts) {
          var k :| 0 <= k < |ts| && ts[k].hole;
          assert ts[1..][k - 1].hole;
        }
        if HasHole(ts[1..]) {
          var k :| 0 <= k < |ts[1..]| && ts[1..][k].hole;
          assert ts[k + 1].hole;
        }
      }
    }
  }

  /** A stack without holes leaves even an inactive robot alone. */
  lemma {:induction false} KillLayersNoHole(r: RobotV, ts: seq<Tile>)
    requires !HasHole(ts)
    ensures KillLayers(r, ts) == r
  {
    if ts != [] {
      forall k | 0 <= k < |ts[1..]|
        ensures !ts[1..][k].hole
      {
        assert ts[1..][k] == ts[k + 1];
      }
      KillLayersNoHole(r, ts[1..]);
    }
  }

  /** A robot that steps off the board falls into the hole `get_tiles` reports there. */
  lemma OffBoardKills(board: Board, r: RobotV, c: Coord)
    requires c !in board
    ensures CheckHole(board, r.(coordinates := c)) == Die(r.(coordinates := c))
  {
  }

  // ---------------------------------------------------------------------------
  // What walking and being moved may change

  /** `PlaceAndLivesOnly` composes. */
  lemma PlacesTrans(a: seq<RobotV>, b: seq<RobotV>, c: seq<RobotV>)
    requires OnlyPlacesAndLives(a, b) && OnlyPlacesAndLives(b, c)
    ensures OnlyPlacesAndLives(a, c)
  {
    forall k | 0 <= k < |a|
      ensures PlaceAndLivesOnly(a[k], c[k])
    {
      assert PlaceAndLivesOnly(a[k], b[k]) && PlaceAndLivesOnly(b[k], c[k]);
    }
  }

  /** Entering a cell moves the robot and perhaps costs it a life; nobody else changes. */
  lemma EnterEffect(board: Board, rs: seq<RobotV>, i: nat, c: Coord)
    requires i < |rs|
    ensures OnlyPlacesAndLives(rs, Enter(board, rs, i, c))
    ensures forall k :: 0 <= k < |rs| && k != i ==> Enter(board, rs, i, c)[k] == rs[k]
  {
    var r := rs[i].(coordinates := c);
    assert KillLayers(r, GetTiles(board, c)) == r || KillLayers(r, GetTiles(board, c)) == Die(r);
  }

  /** A walk of robot `i` changes positions and lives only. */
  lemma {:induction false} WalkStepsPlaces(board: Board, rs: seq<RobotV>, i: nat, n: int, d: Direction)
    requires WellFormed(board) && i < |rs|
    ensures OnlyPlacesAndLives(rs, WalkSteps(board, rs, i, n, d))
    decreases if n < 0 then 0 else n, AheadCount(rs, rs[i].coordinates, d), 1
  {
    if n > 0 && CheckWall(board, rs[i].coordinates, d) {
      var rs1 := Advance(board, rs, i, d);
      AdvancePlaces(board, rs, i, d);
      WalkStepsPlaces(board, rs1, i, n - 1, d);
      PlacesTrans(rs, rs1, WalkSteps(board, rs1, i, n - 1, d));
    }
  }

  /** One step of a walk, pushes included, changes positions and lives only. */
  lemma {:induction false} AdvancePlaces(board: Board, rs: seq<RobotV>, i: nat, d: Direction)
    requires WellFormed(board) && i < |rs|
    ensures OnlyPlacesAndLives(rs, Advance(board, rs, i, d))
    decreases 1, AheadCount(rs, rs[i].coordinates, d), 0
  {
    var next := Neighbour(rs[i].coordinates, d);
    match FirstAt(rs, next)
    case None =>
      EnterEffect(board, rs, i, next);
    case Some(j) =>
      AheadDecreases(rs, rs[i].coordinates, d, j);
      var rs1 := WalkSteps(board, rs, j, 1, d);
      WalkStepsPlaces(board, rs, j, 1, d);
      if rs1[j].coordinates != next {
        EnterEffect(board, rs1, i, next);
        PlacesTrans(rs, rs1, Enter(board, rs1, i, next));
      }
  }

  /** The U-turn block of a backward walk restores the facing. */
  lemma WalkBackPlaces(board: Board, rs: seq<RobotV>, i: nat, n: int)
    requires WellFormed(board) && i < |rs|
    ensures OnlyPlacesAndLives(rs, WalkBack(board, rs, i, n))
  {
    var rs1 := rs[i := Rotate(rs[i], UTurn)];
    var rs2 := WalkSteps(board, rs1, i, n, rs1[i].direction);
    WalkStepsPlaces(board, rs1, i, n, rs1[i].direction);
    assert PlaceAndLivesOnly(rs1[i], rs2[i]);
    TurnsUndo(rs[i].coordinates, rs[i].direction);
  }

  /**
   * `walk` in either direction changes positions and lives only: no robot's
   * facing, flags, damage or program, and the walker ends facing as it began.
   */
  lemma WalkPlaces(board: Board, rs: seq<RobotV>, i: nat, distance: int, d: Direction)
    requires WellFormed(board) && i < |rs|
    ensures OnlyPlacesAndLives(rs, Walk(board, rs, i, distance, d))
  {
    var rs1 := if distance < 0 then WalkBack(board, rs, i, -distance) else rs;
    if distance < 0 {
      WalkBackPlaces(board, rs, i, -distance);
    }
    WalkStepsPlaces(board, rs1, i, distance, d);
    PlacesTrans(rs, rs1, WalkSteps(board, rs1, i, distance, d));
  }

  /** `move` never pushes: only the moved robot changes, and only its position and lives. */
  lemma {:induction false} MoveOnlyMover(board: Board, rs: seq<RobotV>, i: nat, d: Direction, n: int)
    requires WellFormed(board) && i < |rs|
    ensures OnlyPlacesAndLives(rs, Move(board, rs, i, d, n))
    ensures forall k :: 0 <= k < |rs| && k != i ==> Move(board, rs, i, d, n)[k] == rs[k]
    decreases n
  {
    if n > 0 && CheckWall(board, rs[i].coordinates, d) {
      var rs1 := Nudge(board, rs, i, d);
      var next := Neighbour(rs[i].coordinates, d);
      if !Occupied(rs, next) {
        EnterEffect(board, rs, i, next);
      }
      MoveOnlyMover(board, rs1, i, d, n - 1);
      PlacesTrans(rs, rs1, Move(board, rs1, i, d, n - 1));
    }
  }

  /** A `move` whose next cell is occupied or walled off changes nothing for the rest of the call. */
  lemma {:induction false} MoveBlocked(board: Board, rs: seq<RobotV>, i: nat, d: Direction, n: int)
    requires WellFormed(board) && i < |rs|
    requires Occupied(rs, Neighbour(rs[i].coordinates, d)) || !CheckWall(board, rs[i].coordinates, d)
    ensures Move(board, rs, i, d, n) == rs
    decreases n
  {
    if n > 0 && CheckWall(board, rs[i].coordinates, d) {
      MoveBlocked(board, rs, i, d, n - 1);
    }
  }

  // ---------------------------------------------------------------------------
  // Walking a clear lane

  /** The step from `p` in direction `d` meets no wall, no hole, no robot and stays on the board. */
  predicate StepClear(board: Board, rs: seq<RobotV>, p: Coord, d: Direction)
    requires WellFormed(board)
  {
    CheckWall(board, p, d) && Neighbour(p, d) in board
    && !HasHole(board[Neighbour(p, d)]) && !Occupied(rs, Neighbour(p, d))
  }

  /** The `n` steps from `c` in direction `d` are all clear. */
  predicate ClearLane(board: Board, rs: seq<RobotV>, c: Coord, d: Direction, n: nat)
    requires WellFormed(board)
  {
    forall s :: 0 <= s < n ==> StepClear(board, rs, Shift(c, d, s), d)
  }

  /** Nobody stands on `p` after robot `i` moved to `q != p`, if nobody stood there before. */
  lemma StillFree(rs: seq<RobotV>, i: nat, q: Coord, p: Coord)
    requires i < |rs| && !Occupied(rs, p) && q != p
    ensures !Occupied(rs[i := rs[i].(coordinates := q)], p)
  {
    var rs1 := rs[i := rs[i].(coordinates := q)];
    forall k | 0 <= k < |rs1|
      ensures rs1[k].coordinates != p
    {
      if k != i {
        assert rs1[k] == rs[k];
      }
    }
  }

  /** A clear step moves the walker one cell and changes nothing else. */
  lemma AdvanceClear(board: Board, rs: seq<RobotV>, i: nat, d: Direction)
    requires WellFormed(board) && i < |rs| && StepClear(board, rs, rs[i].coordinates, d)
    ensures Advance(board, rs, i, d) == rs[i := rs[i].(coordinates := Neighbour(rs[i].coordinates, d))]
  {
    var next := Neighbour(rs[i].coordinates, d);
    FirstAtIs(rs, next, None);
    KillLayersNoHole(rs[i].(coordinates := next), board[next]);
  }

  /** After the first clear step, the rest of the lane is still clear. */
  lemma LaneAfterStep(board: Board, rs: seq<RobotV>, i: nat, n: nat, d: Direction)
    requires WellFormed(board) && i < |rs| && n > 0 && ClearLane(board, rs, rs[i].coordinates, d, n)
    ensures var c := rs[i].coordinates;
      ClearLane(board, rs[i := rs[i].(coordinates := Neighbour(c, d))], Neighbour(c, d), d, n - 1)
  {
    var c := rs[i].coordinates;
    var rs1 := rs[i := rs[i].(coordinates := Neighbour(c, d))];
    forall s | 0 <= s < n - 1
      ensures StepClear(board, rs1, Shift(Neighbour(c, d), d, s), d)
    {
      ShiftNext(c, d, s);
      assert StepClear(board, rs, Shift(c, d, s + 1), d);
      ShiftNext(c, d, s + 1);
      StillFree(rs, i, Neighbour(c, d), Shift(c, d, s + 2));
    }
  }

  /**
   * `walk(n)` along a clear lane moves the robot exactly `n` cells in
   * direction `d`, keeping its facing, and moves no one else.
   */
  lemma {:induction false} ClearWalk(board: Board, rs: seq<RobotV>, i: nat, n: nat, d: Direction)
    requires WellFormed(board) && i < |rs| && ClearLane(board, rs, rs[i].coordinates, d, n)
    ensures WalkSteps(board, rs, i, n, d) == rs[i := rs[i].(coordinates := Shift(rs[i].coordinates, d, n))]
    decreases n
  {
    var c := rs[i].coordinates;
    if n > 0 {
      var rs1 := rs[i := rs[i].(coordinates := Neighbour(c, d))];
      assert WalkSteps(board, rs, i, n, d) == WalkSteps(board, rs1, i, n - 1, d) by {
        assert StepClear(board, rs, Shift(c, d, 0), d);
        AdvanceClear(board, rs, i, d);
      }
      assert ClearLane(board, rs1, Neighbour(c, d), d, n - 1) by {
        LaneAfterStep(board, rs, i, n, d);
      }
      ClearWalk(board, rs1, i, n - 1, d);
      assert rs1[i := rs1[i].(coordinates := Shift(Neighbour(c, d), d, n - 1))] ==
        rs[i := rs[i].(coordinates := Shift(c, d, n))] by {
        ShiftNext(c, d, n - 1);
      }
    }
  }

  /**
   * `walk(-n)` along a clear lane behind the robot moves it `n` cells
   * against its facing, whatever direction is passed, and it ends facing as
   * it began.
   */
  lemma ClearWalkBack(board: Board, rs: seq<RobotV>, i: nat, n: nat, d: Direction)
    requires WellFormed(board) && i < |rs| && n > 0
    requires ClearLane(board, rs, rs[i].coordinates, NewDirection(rs[i].direction, UTurn), n)
    ensures Walk(board, rs, i, -(n as int), d) ==
      rs[i := rs[i].(coordinates := Shift(rs[i].coordinates, NewDirection(rs[i].direction, UTurn), n))]
  {
    var back := NewDirection(rs[i].direction, UTurn);
    var rs1 := rs[i := Rotate(rs[i], UTurn)];
    forall s | 0 <= s < n
      ensures StepClear(board, rs1, Shift(rs1[i].coordinates, back, s), back)
    {
      assert StepClear(board, rs, Shift(rs[i].coordinates, back, s), back);
    }
    ClearWalk(board, rs1, i, n, back);
    TurnsUndo(rs[i].coordinates, rs[i].direction);
  }

  // ---------------------------------------------------------------------------
  // Pushing

  /**
   * The line of robots ahead of `c` in direction `d` ends at a wall: the
   * next cell is occupied, and its occupant is walled in or blocked in turn.
   */
  predicate ChainBlocked(board: Board, rs: seq<RobotV>, c: Coord, d: Direction)
    requires WellFormed(board)
    decreases AheadCount(rs, c, d)
  {
    match FirstAt(rs, Neighbour(c, d))
    case None => false
    case Some(j) =>
      AheadDecreases(rs, c, d, j);
      !CheckWall(board, rs[j].coordinates, d) || ChainBlocked(board, rs, rs[j].coordinates, d)
  }

  /** A push against a blocked chain moves nobody: no robot's position changes. */
  lemma {:induction false} AdvanceBlocked(board: Board, rs: seq<RobotV>, i: nat, d: Direction)
    requires WellFormed(board) && i < |rs| && ChainBlocked(board, rs, rs[i].coordinates, d)
    ensures Advance(board, rs, i, d) == rs
    decreases AheadCount(rs, rs[i].coordinates, d)
  {
    var next := Neighbour(rs[i].coordinates, d);
    var j := FirstAt(rs, next).value;
    AheadDecreases(rs, rs[i].coordinates, d, j);
    if CheckWall(board, rs[j].coordinates, d) {
      AdvanceBlocked(board, rs, j, d);
    }
    assert WalkSteps(board, rs, j, 1, d) == rs;
  }

  /** A walk into a blocked chain leaves everyone where they are, however far it was meant to go. */
  lemma {:induction false} WalkBlocked(board: Board, rs: seq<RobotV>, i: nat, n: int, d: Direction)
    requires WellFormed(board) && i < |rs| && ChainBlocked(board, rs, rs[i].coordinates, d)
    ensures WalkSteps(board, rs, i, n, d) == rs
    decreases if n < 0 then 0 else n
  {
    if n > 0 && CheckWall(board, rs[i].coordinates, d) {
      AdvanceBlocked(board, rs, i, d);
      WalkBlocked(board, rs, i, n - 1, d);
    }
  }

  /**
   * A robot in the way that is pushed into a hole (or off the board) loses a
   * life and leaves the board; since its position changed, the walker then
   * enters the cell it stood on.
   */
  lemma PushIntoHole(board: Board, rs: seq<RobotV>, i: nat, d: Direction, j: nat)
    requires WellFormed(board) && i < |rs|
    requires FirstAt(rs, Neighbour(rs[i].coordinates, d)) == Some(j)
    requires rs[j].coordinates != Sentinel && Neighbour(rs[j].coordinates, d) != Sentinel
    requires CheckWall(board, rs[j].coordinates, d) && !Occupied(rs, Neighbour(rs[j].coordinates, d))
    requires HasHole(GetTiles(board, Neighbour(rs[j].coordinates, d)))
    ensures Advance(board, rs, i, d) == Enter(board, rs[j := Die(rs[j])], i, rs[j].coordinates)
  {
    var q := Neighbour(rs[j].coordinates, d);
    FirstAtIs(rs, q, None);
    var r := rs[j].(coordinates := q);
    KillLayersIff(r, GetTiles(board, q));
    assert Die(r) == Die(rs[j]);
    var rs1 := rs[j := Die(rs[j])];
    assert Advance(board, rs, j, d) == rs1;
    WalkStepsUnfold(board, rs, j, 1, d);
    AdvanceAfterPush(board, rs, i, d, j, rs1);
  }

  /** Pushing a robot with a clear cell behind it moves both one cell. */
  lemma PushOne(board: Board, rs: seq<RobotV>, i: nat, d: Direction, j: nat)
    requires WellFormed(board) && i < |rs| && i != j
    requires FirstAt(rs, Neighbour(rs[i].coordinates, d)) == Some(j)
    requires StepClear(board, rs, rs[j].coordinates, d)
    requires !HasHole(GetTiles(board, rs[j].coordinates))
    ensures var next := rs[j].coordinates;
      Advance(board, rs, i, d) ==
        rs[j := rs[j].(coordinates := Neighbour(next, d))][i := rs[i].(coordinates := next)]
  {
    var next := rs[j].coordinates;
    AdvanceClear(board, rs, j, d);
    assert WalkSteps(board, rs, j, 1, d) == Advance(board, rs, j, d);
    var rs1 := rs[j := rs[j].(coordinates := Neighbour(next, d))];
    assert rs1[j].coordinates != next;
    AdvanceAfterPush(board, rs, i, d, j, rs1);
    KillLayersNoHole(rs1[i].(coordinates := next), GetTiles(board, next));
  }

  // ---------------------------------------------------------------------------
  // Falling off the board mid-walk

  /**
   * The loop of `walk` has no exit for a robot that died: from the sentinel
   * position, when the cell beside it is not on the board, every remaining
   * step passes the wall check, enters that cell and falls again, costing
   * one more life each time.
   */
  lemma {:induction false} StepsAfterFall(board: Board, rs: seq<RobotV>, i: nat, n: nat, d: Direction)
    requires WellFormed(board) && i < |rs| && rs[i].Inactive()
    requires Sentinel !in board && Neighbour(Sentinel, d) !in board
    requires !Occupied(rs, Neighbour(Sentinel, d))
    ensures WalkSteps(board, rs, i, n, d) == rs[i := rs[i].(lives := rs[i].lives - n)]
    decreases n
  {
    if n > 0 {
      OffBoardNoWall(board, Sentinel, d);
      var next := Neighbour(Sentinel, d);
      FirstAtIs(rs, next, None);
      var rs1 := rs[i := rs[i].(lives := rs[i].lives - 1)];
      assert Advance(board, rs, i, d) == rs1;
      assert rs1 == rs[i := rs[i].(coordinates := Sentinel, lives := rs[i].lives - 1)];
      StillFree(rs, i, Sentinel, next);
      StepsAfterFall(board, rs1, i, n - 1, d);
      assert rs1[i := rs1[i].(lives := rs1[i].lives - (n - 1))] == rs[i := rs[i].(lives := rs[i].lives - n)];
    }
  }

  /** A walk of `n` steps whose first step leaves the board costs `n` lives. */
  lemma WalkOffBoard(board: Board, rs: seq<RobotV>, i: nat, n: nat, d: Direction)
    requires WellFormed(board) && i < |rs| && n > 0
    requires Neighbour(rs[i].coordinates, d) !in board && !Occupied(rs, Neighbour(rs[i].coordinates, d))
    requires CheckWall(board, rs[i].coordinates, d)
    requires Sentinel !in board && Neighbour(Sentinel, d) !in board && !Occupied(rs, Neighbour(Sentinel, d))
    ensures WalkSteps(board, rs, i, n, d)[i] == Die(rs[i]).(lives := rs[i].lives - n)
  {
    var next := Neighbour(rs[i].coordinates, d);
    FirstAtIs(rs, next, None);
    var rs1 := rs[i := Die(rs[i])];
    assert Advance(board, rs, i, d) == rs1;
    assert rs1 == rs[i := rs[i].(coordinates := Sentinel, lives := rs[i].lives - 1)];
    StillFree(rs, i, Sentinel, Neighbour(Sentinel, d));
    StepsAfterFall(board, rs1, i, n - 1, d);
  }

  // ---------------------------------------------------------------------------
  // Cards

  /** A movement card walks the robot along its own facing; positions and lives are all it changes. */
  lemma MovementCardPlaces(board: Board, rs: seq<RobotV>, i: nat, round: int)
    requires WellFormed(board) && i < |rs| && 1 <= round <= |rs[i].program|
    requires rs[i].program[round - 1].MovementCard?
    ensures ApplyCard(board, rs, i, round) == Walk(board, rs, i, rs[i].program[round - 1].distance, rs[i].direction)
    ensures OnlyPlacesAndLives(rs, ApplyCard(board, rs, i, round))
  {
    WalkPlaces(board, rs, i, rs[i].program[round - 1].distance, rs[i].direction);
  }

  // ---------------------------------------------------------------------------
  // The phases of apply_tile_effects

  /** What a phase may change about one robot. */
  predicate PhaseKeeps(ph: Phase, a: RobotV, b: RobotV)
  {
    match ph
    case Pushers => PlaceAndLivesOnly(a, b)
    case Gears => b == a.(direction := b.direction)
    case Lasers => b == a.(coordinates := b.coordinates, lives := b.lives, damages := b.damages) && b.damages >= a.damages
    case FlagsAndRepair => b == a.(flags := b.flags, damages := b.damages) && b.flags >= a.flags && b.damages <= a.damages
  }

  /** A phase costs a robot at most one life, and a robot that lost one is off the board. */
  predicate AtMostOneLife(a: RobotV, b: RobotV)
  {
    b.lives == a.lives || (b.lives == a.lives - 1 && b.Inactive())
  }

  /** One layer's hook acts on robot `i` alone, within what its phase may change. */
  lemma ApplyTileEffect(ph: Phase, board: Board, t: Tile, rs: seq<RobotV>, i: nat, round: int)
    requires WellFormed(board) && i < |rs|
    ensures forall k :: 0 <= k < |rs| && k != i ==> ApplyTile(ph, board, t, rs, i, round)[k] == rs[k]
    ensures PhaseKeeps(ph, rs[i], ApplyTile(ph, board, t, rs, i, round)[i])
    ensures AtMostOneLife(rs[i], ApplyTile(ph, board, t, rs, i, round)[i])
  {
    if ph == Pushers && t.pusher.Some? && round in t.pusher.value.rounds {
      var d := t.pusher.value.direction;
      MoveOnlyMover(board, rs, i, d, 1);
      if CheckWall(board, rs[i].coordinates, d) && !Occupied(rs, Neighbour(rs[i].coordinates, d)) {
        var r := rs[i].(coordinates := Neighbour(rs[i].coordinates, d));
        assert KillLayers(r, GetTiles(board, r.coordinates)) == r || KillLayers(r, GetTiles(board, r.coordinates)) == Die(r);
      }
    }
  }

  /** `PhaseKeeps` composes. */
  lemma PhaseKeepsTrans(ph: Phase, a: RobotV, b: RobotV, c: RobotV)
    requires PhaseKeeps(ph, a, b) && PhaseKeeps(ph, b, c)
    ensures PhaseKeeps(ph, a, c)
  {
  }

  /**
   * A phase's loop over the layers of robot `i` changes that robot alone,
   * within what the phase may change, and at most one life: the pusher and
   * laser loops stop once the robot is off the board.
   */
  lemma {:induction false} LayersEffect(ph: Phase, board: Board, rs: seq<RobotV>, i: nat, ts: seq<Tile>, round: int)
    requires WellFormed(board) && i < |rs|
    ensures forall k :: 0 <= k < |rs| && k != i ==> Layers(ph, board, rs, i, ts, round)[k] == rs[k]
    ensures PhaseKeeps(ph, rs[i], Layers(ph, board, rs, i, ts, round)[i])
    ensures AtMostOneLife(rs[i], Layers(ph, board, rs, i, ts, round)[i])
    decreases |ts|
  {
    if ts != [] {
      var rs1 := ApplyTile(ph, board, ts[0], rs, i, round);
      ApplyTileEffect(ph, board, ts[0], rs, i, round);
      if !(StopsWhenInactive(ph) && rs1[i].Inactive()) {
        LayersEffect(ph, board, rs1, i, ts[1..], round);
        PhaseKeepsTrans(ph, rs[i], rs1[i], Layers(ph, board, rs1, i, ts[1..], round)[i]);
      }
    }
  }

  /** Strictly increasing positions, as the active list is built. */
  predicate Increasing(idx: seq<nat>)
  {
    forall a, b :: 0 <= a < b < |idx| ==> idx[a] < idx[b]
  }

  /**
   * A phase's loop over the robots `idx`: a robot not listed is unchanged,
   * and a listed one changes within what the phase may change and loses at
   * most one life.
   */
  lemma {:induction false} EachEffect(ph: Phase, board: Board, rs: seq<RobotV>, idx: seq<nat>, round: int, k: nat)
    requires WellFormed(board) && AllBelow(idx, |rs|) && Increasing(idx) && k < |rs|
    ensures k !in idx ==> Each(ph, board, rs, idx, round)[k] == rs[k]
    ensures PhaseKeeps(ph, rs[k], Each(ph, board, rs, idx, round)[k])
    ensures AtMostOneLife(rs[k], Each(ph, board, rs, idx, round)[k])
    decreases |idx|
  {
    if idx != [] {
      var j := idx[0];
      var rs1 := Layers(ph, board, rs, j, GetTiles(board, rs[j].coordinates), round);
      LayersEffect(ph, board, rs, j, GetTiles(board, rs[j].coordinates), round);
      assert Increasing(idx[1..]) by {
        forall a, b | 0 <= a < b < |idx[1..]|
          ensures idx[1..][a] < idx[1..][b]
        {
          assert idx[1..][a] == idx[a + 1] && idx[1..][b] == idx[b + 1];
        }
      }
      EachEffect(ph, board, rs1, idx[1..], round, k);
      if j == k {
        assert k !in idx[1..] by {
          forall m | 0 <= m < |idx[1..]|
            ensures idx[1..][m] != k
          {
            assert idx[1..][m] == idx[m + 1];
          }
        }
      } else {
        assert k in idx[1..] <==> k in idx;
      }
    }
  }

  /** The indices chosen from `rs[k..]` lie in `k..|rs| - 1`. */
  lemma {:induction false} ActiveFromBounds(rs: seq<RobotV>, k: nat)
    ensures forall m :: 0 <= m < |ActiveFrom(rs, k)| ==> k <= ActiveFrom(rs, k)[m] < |rs|
    decreases |rs| - k
  {
    if k < |rs| {
      ActiveFromBounds(rs, k + 1);
    }
  }

  /** The indices chosen are strictly increasing. */
  lemma {:induction false} ActiveFromIncreasing(rs: seq<RobotV>, k: nat)
    ensures Increasing(ActiveFrom(rs, k))
    decreases |rs| - k
  {
    if k < |rs| {
      ActiveFromIncreasing(rs, k + 1);
      ActiveFromBounds(rs, k + 1);
      var rest := ActiveFrom(rs, k + 1);
      if !rs[k].Inactive() {
        assert ActiveFrom(rs, k) == [k] + rest;
        assert forall m :: 0 < m < |[k] + rest| ==> ([k] + rest)[m] == rest[m - 1];
      }
    }
  }

  /** An index from `k` on is chosen exactly when its robot is active. */
  lemma {:induction false} ActiveFromMembers(rs: seq<RobotV>, k: nat)
    ensures forall j :: k <= j < |rs| ==> (j in ActiveFrom(rs, k) <==> !rs[j].Inactive())
    decreases |rs| - k
  {
    if k < |rs| {
      ActiveFromMembers(rs, k + 1);
      ActiveFromBounds(rs, k + 1);
      var rest := ActiveFrom(rs, k + 1);
      assert k !in rest;
      if !rs[k].Inactive() {
        assert ActiveFrom(rs, k) == [k] + rest;
      }
    }
  }

  /** The active list holds exactly the active robots from `k` on, in increasing order. */
  lemma ActiveFromSpec(rs: seq<RobotV>, k: nat)
    ensures forall m :: 0 <= m < |ActiveFrom(rs, k)| ==> k <= ActiveFrom(rs, k)[m] < |rs|
    ensures Increasing(ActiveFrom(rs, k))
    ensures forall j :: k <= j < |rs| ==> (j in ActiveFrom(rs, k) <==> !rs[j].Inactive())
  {
    ActiveFromBounds(rs, k);
    ActiveFromIncreasing(rs, k);
    ActiveFromMembers(rs, k);
  }

  /**
   * A phase acts only on the robots that were active when it began: an
   * inactive robot is unchanged, and an active one changes within what the
   * phase may change and loses at most one life.
   */
  lemma RunPhaseEffect(ph: Phase, board: Board, rs: seq<RobotV>, round: int, k: nat)
    requires WellFormed(board) && k < |rs|
    ensures rs[k].Inactive() ==> RunPhase(ph, board, rs, round)[k] == rs[k]
    ensures PhaseKeeps(ph, rs[k], RunPhase(ph, board, rs, round)[k])
    ensures AtMostOneLife(rs[k], RunPhase(ph, board, rs, round)[k])
  {
    ActiveFromSpec(rs, 0);
    EachEffect(ph, board, rs, ActiveIndices(rs), round, k);
  }

  /**
   * Outside round 5, `apply_tile_effects` keeps the roster, costs each robot
   * at most one life (a robot pushed into a hole is inactive by the time the
   * lasers fire), never lowers a flag count and leaves programs and starting
   * cells alone.
   */
  lemma TileEffectsOneLife(board: Board, rs: seq<RobotV>, round: int, k: nat)
    requires WellFormed(board) && round != 5 && k < |rs|
    ensures |ApplyTileEffects(board, rs, round)| == |rs|
    ensures AtMostOneLife(rs[k], ApplyTileEffects(board, rs, round)[k])
    ensures ApplyTileEffects(board, rs, round)[k].flags >= rs[k].flags
    ensures ApplyTileEffects(board, rs, round)[k].program == rs[k].program
    ensures ApplyTileEffects(board, rs, round)[k].startCoordinates == rs[k].startCoordinates
  {
    var rs1 := RunPhase(Pushers, board, rs, round);
    var rs2 := RunPhase(Gears, board, rs1, round);
    var rs3 := RunPhase(Lasers, board, rs2, round);
    RunPhaseEffect(Pushers, board, rs, round, k);
    RunPhaseEffect(Gears, board, rs1, round, k);
    RunPhaseEffect(Lasers, board, rs2, round, k);
    RunPhaseEffect(FlagsAndRepair, board, rs3, round, k);
  }

  /** The purge happens only after round 5, and then every robot left has a life. */
  lemma PurgeOnlyInRoundFive(board: Board, rs: seq<RobotV>, round: int)
    requires WellFormed(board)
    ensures round != 5 ==> |ApplyTileEffects(board, rs, round)| == |rs|
    ensures round == 5 ==> forall m :: 0 <= m < |ApplyTileEffects(board, rs, round)| ==>
      ApplyTileEffects(board, rs, round)[m].lives > 0
  {
    if round == 5 {
      var rs4 := RunPhase(FlagsAndRepair, board,
        RunPhase(Lasers, board, RunPhase(Gears, board, RunPhase(Pushers, board, rs, round), round), round), round);
      SurvivorsAlive(rs4);
    }
  }

  // ---------------------------------------------------------------------------
  // The end of a five-round cycle

  /** The survivors of a concatenation are the survivors of each part, in order. */
  lemma {:induction false} SurvivorsAppend(a: seq<RobotV>, b: seq<RobotV>)
    ensures Survivors(a + b) == Survivors(a) + Survivors(b)
    decreases |b|
  {
    if b == [] {
      assert a + b == a;
    } else {
      var n := |b| - 1;
      assert (a + b)[..|a + b| - 1] == a + b[..n];
      assert (a + b)[|a + b| - 1] == b[n];
      SurvivorsAppend(a, b[..n]);
      var x := if b[n].lives > 0 then [b[n]] else [];
      calc {
        Survivors(a + b);
        Survivors(a + b[..n]) + x;
        (Survivors(a) + Survivors(b[..n])) + x;
        Survivors(a) + (Survivors(b[..n]) + x);
      }
    }
  }

  /** Every survivor has a life left and comes from the roster. */
  lemma {:induction false} SurvivorsAlive(rs: seq<RobotV>)
    ensures forall m :: 0 <= m < |Survivors(rs)| ==> Survivors(rs)[m].lives > 0 && Survivors(rs)[m] in rs
    ensures |Survivors(rs)| <= |rs|
  {
    if rs != [] {
      var n := |rs| - 1;
      SurvivorsAlive(rs[..n]);
      assert forall r :: r in rs[..n] ==> r in rs;
    }
  }

  /** A roster in which everyone has a life left is kept whole. */
  lemma {:induction false} SurvivorsAll(rs: seq<RobotV>)
    requires forall k :: 0 <= k < |rs| ==> rs[k].lives > 0
    ensures Survivors(rs) == rs
  {
    if rs != [] {
      var n := |rs| - 1;
      var front := rs[..n];
      forall k | 0 <= k < |front|
        ensures front[k].lives > 0
      {
        assert front[k] == rs[k];
      }
      SurvivorsAll(front);
      assert rs[n].lives > 0;
      assert Survivors(rs) == front + [rs[n]];
      assert front + [rs[n]] == rs;
    }
  }

  /**
   * `set_robots_for_new_turn`: the new roster is the robots with lives left,
   * in order; each one is on the board when its starting cell is, has its
   * lives, flags and program, and an inactive one restarts facing north and
   * undamaged while an active one is untouched.
   */
  lemma NewTurnEffect(rs: seq<RobotV>, m: nat)
    requires m < |NewTurn(rs)|
    ensures |NewTurn(rs)| == |Survivors(rs)|
    ensures var r := Survivors(rs)[m]; var r' := NewTurn(rs)[m];
      r.lives > 0 && r in rs && r'.lives == r.lives && r'.flags == r.flags && r'.program == r.program
      && (r.startCoordinates != Sentinel ==> !r'.Inactive())
      && (r.Inactive() ==> r'.coordinates == r.startCoordinates && r'.damages == 0 && r'.direction == N)
      && (!r.Inactive() ==> r' == r)
  {
    SurvivorsAlive(rs);
  }

  // ---------------------------------------------------------------------------
  // Starting squares and board size

  /**
   * A stack contributes at most one starting coordinate per layer, and none
   * exactly when no layer is a starting square.
   */
  lemma {:induction false} StartingLayersBound(ts: seq<Tile>)
    ensures StartingLayers(ts) <= |ts|
    ensures StartingLayers(ts) == 0 <==> forall k :: 0 <= k < |ts| ==> !IsStartingSquare(ts[k])
  {
    if ts != [] {
      var n := |ts| - 1;
      StartingLayersBound(ts[..n]);
      assert forall k :: 0 <= k < n ==> ts[..n][k] == ts[k];
    }
  }

  /**
   * A layer is a starting square exactly when its image path is the
   * starting-square prefix, one digit from 0 to 8, and ".png".
   */
  lemma StartingSquareIff(t: Tile)
    ensures IsStartingSquare(t) <==>
      |t.path| == 39 && t.path[..34] == "./img/squares/png/starting_square0"
      && '0' <= t.path[34] <= '8' && t.path[35..] == ".png"
  {
    if |t.path| == 39 && t.path[..34] == "./img/squares/png/starting_square0"
      && '0' <= t.path[34] <= '8' && t.path[35..] == ".png"
    {
      var i := t.path[34] as int - 48;
      assert t.path == t.path[..34] + [t.path[34]] + t.path[35..];
      assert t.path == StartPath(i);
    }
  }

  /** The columns of the cells `keys` name. */
  function KeyColumns(keys: set<Coord>): set<int>
  {
    set c | c in keys :: c.0
  }

  /** The rows of the cells `keys` name. */
  function KeyRows(keys: set<Coord>): set<int>
  {
    set c | c in keys :: c.1
  }

  /** Taking one cell out of the keys removes at most one column and one row. */
  lemma DropKey(keys: set<Coord>, c: Coord)
    requires c in keys
    ensures KeyColumns(keys) == KeyColumns(keys - {c}) + {c.0}
    ensures KeyRows(keys) == KeyRows(keys - {c}) + {c.1}
  {
    forall x | x in KeyColumns(keys)
      ensures x in KeyColumns(keys - {c}) + {c.0}
    {
      var c' :| c' in keys && x == c'.0;
      if c' != c {
        assert c' in keys - {c};
      }
    }
    forall y | y in KeyRows(keys)
      ensures y in KeyRows(keys - {c}) + {c.1}
    {
      var c' :| c' in keys && y == c'.1;
      if c' != c {
        assert c' in keys - {c};
      }
    }
  }

  /** The keys' columns and rows are no more numerous than the keys. */
  lemma {:induction false} KeysBound(keys: set<Coord>)
    ensures |KeyColumns(keys)| <= |keys| && |KeyRows(keys)| <= |keys|
    decreases |keys|
  {
    if keys != {} {
      var c :| c in keys;
      KeysBound(keys - {c});
      DropKey(keys, c);
    }
  }

  /** `get_tile_count` never reports more columns or rows than the board has cells. */
  lemma TileCountBound(board: Board)
    ensures |Columns(board)| <= |board| && |Rows(board)| <= |board|
  {
    KeysBound(board.Keys);
    assert Columns(board) == KeyColumns(board.Keys);
    assert Rows(board) == KeyRows(board.Keys);
  }

  /** The integers 0 up to `w - 1`. */
  function Upto(w: nat): (r: set<int>)
    ensures forall x :: x in r <==> 0 <= x < w
  {
    if w == 0 then {} else Upto(w - 1) + {w - 1}
  }

  /** There are `w` of them. */
  lemma {:induction false} UptoSize(w: nat)
    ensures |Upto(w)| == w
  {
    if w > 0 {
      var below := Upto(w - 1);
      UptoSize(w - 1);
      assert w - 1 !in below;
      assert Upto(w) == below + {w - 1};
    }
  }

  /** On a `w` by `h` board with corner (0, 0), `get_tile_count` reports (w, h). */
  lemma TileCountRectangle(board: Board, w: nat, h: nat)
    requires w > 0 && h > 0
    requires forall c :: c in board <==> 0 <= c.0 < w && 0 <= c.1 < h
    ensures |Columns(board)| == w && |Rows(board)| == h
  {
    forall x | x in Upto(w)
      ensures x in Columns(board)
    {
      assert (x, 0) in board;
    }
    forall y | y in Upto(h)
      ensures y in Rows(board)
    {
      assert (0, y) in board;
    }
    assert Columns(board) == Upto(w);
    assert Rows(board) == Upto(h);
    UptoSize(w);
    UptoSize(h);
  }

  // ---------------------------------------------------------------------------
  // Walking forward and back

  /** A board cell all of whose layers are open: no wall and no hole. */
  predicate OpenCell(board: Board, p: Coord)
  {
    p in board && forall t :: 0 <= t < |board[p]| ==> IsOpen(board[p][t])
  }

  /** A step between open cells onto a free cell is clear. */
  lemma OpenStep(board: Board, rs: seq<RobotV>, p: Coord, e: Direction)
    requires WellFormed(board) && OpenCell(board, p) && OpenCell(board, Neighbour(p, e))
    requires !Occupied(rs, Neighbour(p, e))
    ensures StepClear(board, rs, p, e)
  {
  }

  /** Different step counts along one direction reach different cells. */
  lemma ShiftApart(c: Coord, d: Direction, a: nat, b: nat)
    requires a != b
    ensures Shift(c, d, a) != Shift(c, d, b)
  {
  }

  /** Stepping back `s` of the `n` cells just walked. */
  lemma ShiftBack(c: Coord, d: Direction, n: nat, s: nat)
    requires s <= n
    ensures Shift(Shift(c, d, n), NewDirection(d, UTurn), s) == Shift(c, d, n - s)
  {
    match d
    case N => assert NewDirection(d, UTurn) == S;
    case E => assert NewDirection(d, UTurn) == W;
    case S => assert NewDirection(d, UTurn) == N;
    case W => assert NewDirection(d, UTurn) == E;
  }

  /**
   * The corridor of the `n` cells ahead of robot `i` (and its own cell) is
   * open, and no other robot stands on it.
   */
  predicate Corridor(board: Board, rs: seq<RobotV>, i: nat, n: nat)
    requires i < |rs|
  {
    (forall k :: 0 <= k <= n ==> OpenCell(board, Shift(rs[i].coordinates, rs[i].direction, k)))
    && (forall j, k :: 0 <= j < |rs| && j != i && 0 <= k <= n ==>
          rs[j].coordinates != Shift(rs[i].coordinates, rs[i].direction, k))
  }

  /** Nobody stands on `p` when robot `i` does not and no other robot does. */
  lemma NobodyOn(rs: seq<RobotV>, i: nat, p: Coord)
    requires i < |rs| && rs[i].coordinates != p
    requires forall j :: 0 <= j < |rs| && j != i ==> rs[j].coordinates != p
    ensures !Occupied(rs, p)
  {
  }

  /** The way out along the corridor is a clear lane. */
  lemma CorridorOut(board: Board, rs: seq<RobotV>, i: nat, n: nat)
    requires WellFormed(board) && i < |rs| && Corridor(board, rs, i, n)
    ensures ClearLane(board, rs, rs[i].coordinates, rs[i].direction, n)
  {
    var c := rs[i].coordinates;
    var d := rs[i].direction;
    forall s | 0 <= s < n
      ensures StepClear(board, rs, Shift(c, d, s), d)
    {
      assert Neighbour(Shift(c, d, s), d) == Shift(c, d, s + 1);
      ShiftApart(c, d, 0, s + 1);
      NobodyOn(rs, i, Shift(c, d, s + 1));
      OpenStep(board, rs, Shift(c, d, s), d);
    }
  }

  /** Step `s` of the way back from the far end of the corridor is clear. */
  lemma CorridorBackStep(board: Board, rs: seq<RobotV>, i: nat, n: nat, s: nat)
    requires WellFormed(board) && i < |rs| && Corridor(board, rs, i, n) && s < n
    ensures var far := Shift(rs[i].coordinates, rs[i].direction, n);
      var back := NewDirection(rs[i].direction, UTurn);
      StepClear(board, rs[i := rs[i].(coordinates := far)], Shift(far, back, s), back)
  {
    var c := rs[i].coordinates;
    var d := rs[i].direction;
    var far := Shift(c, d, n);
    var back := NewDirection(d, UTurn);
    var rs1 := rs[i := rs[i].(coordinates := far)];
    ShiftBack(c, d, n, s);
    ShiftBack(c, d, n, s + 1);
    var here := Shift(c, d, n - s);
    var p := Shift(c, d, n - s - 1);
    assert Shift(far, back, s) == here;
    assert Neighbour(here, back) == p;
    assert OpenCell(board, here) && OpenCell(board, p);
    forall j | 0 <= j < |rs1| && j != i
      ensures rs1[j].coordinates != p
    {
      assert rs1[j] == rs[j];
      assert rs[j].coordinates != Shift(c, d, n - s - 1);
    }
    ShiftApart(c, d, n, n - s - 1);
    NobodyOn(rs1, i, p);
    OpenStep(board, rs1, here, back);
  }

  /** Once robot `i` stands at the far end, the way back is a clear lane. */
  lemma CorridorBack(board: Board, rs: seq<RobotV>, i: nat, n: nat)
    requires WellFormed(board) && i < |rs| && Corridor(board, rs, i, n)
    ensures var far := Shift(rs[i].coordinates, rs[i].direction, n);
      ClearLane(board, rs[i := rs[i].(coordinates := far)], far, NewDirection(rs[i].direction, UTurn), n)
  {
    forall s | 0 <= s < n
      ensures var far := Shift(rs[i].coordinates, rs[i].direction, n);
        var back := NewDirection(rs[i].direction, UTurn);
        StepClear(board, rs[i := rs[i].(coordinates := far)], Shift(far, back, s), back)
    {
      CorridorBackStep(board, rs, i, n, s);
    }
  }

  /**
   * `walk(n)` and then `walk(-n)` along a corridor of open cells that no
   * other robot stands on returns the robot to its cell and its facing, and
   * nobody else changes.
   */
  lemma WalkRoundTrip(board: Board, rs: seq<RobotV>, i: nat, n: nat, e: Direction)
    requires WellFormed(board) && i < |rs| && Corridor(board, rs, i, n)
    ensures Walk(board, Walk(board, rs, i, n, rs[i].direction), i, -(n as int), e) == rs
  {
    var c := rs[i].coordinates;
    var d := rs[i].direction;
    if n > 0 {
      CorridorOut(board, rs, i, n);
      ClearWalk(board, rs, i, n, d);
      var rs1 := rs[i := rs[i].(coordinates := Shift(c, d, n))];
      CorridorBack(board, rs, i, n);
      ClearWalkBack(board, rs1, i, n, e);
      ShiftBack(c, d, n, n);
      assert rs1[i := rs1[i].(coordinates := c)] == rs;
    }
  }
}
