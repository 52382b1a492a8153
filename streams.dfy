/**
 * The game state and the reducer that maps (state, event) to the next state.
 *
 * The reducer's requests to restart the gravity timer are returned as the
 * list of periods it emits, in order; a period of 0 stops the timer.
 */
module Streams {
  import opened Wrappers
  import opened Events
  import opened Util
  import opened Tetriminos

  datatype GameState = GameState(
    isPaused: bool,
    isGameOver: bool,
    toggleColor: bool,
    level: nat,
    lines: nat,
    x: int,
    y: nat,
    active: Piece,
    next: Piece,
    stack: Matrix,
    field: Matrix,
    spawnX: int,
    spawnY: nat)

  /**
   * A well-formed state: stack and field are rectangular and of the same
   * size, both pieces are catalog entries, a 3-by-3 box fits at the spawn
   * anchor, and the active piece's bounding box lies inside the walls.
   */
  ghost predicate Valid(s: GameState) {
    && IsField(s.stack) && IsField(s.field)
    && |s.field| == |s.stack| && |s.field[0]| == |s.stack[0]|
    && s.active.Valid() && s.next.Valid()
    && 0 <= s.spawnX && s.spawnX + 3 <= |s.stack[0]| && s.spawnY + 3 <= |s.stack|
    && InWalls(s.stack, s.active.Shape(), s.x, s.y)
  }

  /** The state of a new game: paused, level 1, nothing cleared, empty 15-by-10 board, pieces at the spawn anchor. */
  function NewGameState(activeKind: nat, nextKind: nat): (s: GameState)
    requires activeKind < KindCount && nextKind < KindCount
    ensures Valid(s)
    ensures s.isPaused && !s.isGameOver && !s.toggleColor && s.level == 1 && s.lines == 0
    ensures |s.stack| == GridSizeY && |s.stack[0]| == GridSizeX && s.field == s.stack
    ensures s.x == s.spawnX == SpawnX && s.y == s.spawnY == SpawnY
    ensures s.active == Piece(activeKind, 0) && s.next == Piece(nextKind, 0)
    ensures forall i, j :: 0 <= i < |s.stack| && 0 <= j < |s.stack[i]| ==> IsEmptyCell(s.stack[i][j])
  {
    CatalogWellFormed(activeKind, 0);
    CatalogWellFormed(nextKind, 0);
    var s := GameState(
      isPaused := true, isGameOver := false, toggleColor := false,
      level := 1, lines := 0,
      x := SpawnX, y := SpawnY,
      active := Piece(activeKind, 0), next := Piece(nextKind, 0),
      stack := ClearField(), field := ClearField(),
      spawnX := SpawnX, spawnY := SpawnY);
    SpawnFits(s, s.active);
    s
  }

  /** Every catalog piece fits inside the walls at the spawn anchor. */
  lemma SpawnFits(s: GameState, p: Piece)
    requires IsField(s.stack) && p.Valid()
    requires 0 <= s.spawnX && s.spawnX + 3 <= |s.stack[0]| && s.spawnY + 3 <= |s.stack|
    ensures InWalls(s.stack, p.Shape(), s.spawnX, s.spawnY)
  {
    BoundsWithin(p.Shape(), 3, 3);
  }

  /** The key name of a key press, mapped to the event it triggers, if any. */
  function FromKeyboardEvent(key: string): (e: Option<GameEvent>)
    ensures e == Some(Color) <==> key == "c"
    ensures e == Some(Restart) <==> key == "Backspace"
    ensures e == Some(Pause) <==> key == "Space" || key == " "
    ensures e == Some(Left) <==> key == "ArrowLeft"
    ensures e == Some(Right) <==> key == "ArrowRight"
    ensures e == Some(Down) <==> key == "ArrowDown"
    ensures e == Some(Rotate) <==> key == "ArrowUp"
    ensures e != Some(Fall)
  {
    if key == "c" then Some(Color)
    else if key == "Backspace" then Some(Restart)
    else if key == "Space" || key == " " then Some(Pause)
    else if key == "ArrowLeft" then Some(Left)
    else if key == "ArrowRight" then Some(Right)
    else if key == "ArrowDown" then Some(Down)
    else if key == "ArrowUp" then Some(Rotate)
    else None
  }

  /** Events without effect on a paused game. */
  predicate IsMove(e: GameEvent) {
    e.Fall? || e.Down? || e.Left? || e.Right? || e.Rotate?
  }

  /** How piece p at (x, y) sits on the state's stack. */
  ghost function ClassifyAt(s: GameState, p: Piece, x: int, y: nat): CollisionType
    requires IsField(s.stack) && p.Valid()
  {
    Classify(s.stack, p.Shape(), x, y, s.spawnX, s.spawnY)
  }

  /** The collision results on which a falling piece locks into the stack. */
  predicate Locks(c: CollisionType) {
    c == WallBottom || c == BrickOther
  }

  /** One row lower, the active piece would hit the bottom wall or a brick: it locks instead of falling. */
  ghost predicate Lands(s: GameState)
    requires Valid(s)
  {
    Locks(ClassifyAt(s, s.active, s.x, s.y + 1))
  }

  /**
   * Left (dx = -1) or Right (dx = 1): the piece moves one column unless it
   * would hit the wall on that side or a brick away from the spawn anchor.
   * Any other result keeps the move, GameOver included: a brick hit at the
   * anchor is reported as GameOver and does not undo it.
   */
  ghost function Shifted(s: GameState, dx: int): (t: GameState)
    requires Valid(s) && (dx == -1 || dx == 1)
    ensures Valid(t)
    ensures t.(x := s.x) == s
  {
    ClassifySideways(s.stack, s.active.Shape(), s.x, s.y, dx, s.spawnX, s.spawnY);
    if ShiftBlocked(s, dx) then s else s.(x := s.x + dx)
  }

  /** One column to the side (dx = -1 or 1), the active piece would hit the wall on that side or BrickOther. */
  ghost predicate ShiftBlocked(s: GameState, dx: int)
    requires Valid(s)
  {
    Stops(ClassifyAt(s, s.active, s.x + dx, s.y), dx)
  }

  /** The collision results that undo a sideways move: the wall on that side, or BrickOther. */
  predicate Stops(c: CollisionType, dx: int) {
    c == (if dx < 0 then WallLeft else WallRight) || c == BrickOther
  }

  /**
   * The sideways move as evidently intended: a brick hit undoes it at the
   * spawn anchor too, where the collision test reports GameOver.
   */
  ghost function ShiftedCorrected(s: GameState, dx: int): (t: GameState)
    requires Valid(s) && (dx == -1 || dx == 1)
    ensures Valid(t)
    ensures t.(x := s.x) == s
  {
    var c := ClassifyAt(s, s.active, s.x + dx, s.y);
    if Stops(c, dx) || c == GameOver then s else s.(x := s.x + dx)
  }

  /**
   * The two sideways rules part only on a GameOver result, which needs the
   * move to end at the spawn anchor: there the original keeps the move and
   * the corrected rule undoes it.
   */
  lemma ShiftRulesDiffer(s: GameState, dx: int)
    requires Valid(s) && (dx == -1 || dx == 1)
    ensures ShiftedCorrected(s, dx) != Shifted(s, dx) <==> ClassifyAt(s, s.active, s.x + dx, s.y) == GameOver
    ensures ShiftedCorrected(s, dx) != Shifted(s, dx) ==>
              && s.x + dx == s.spawnX && s.y == s.spawnY
              && Shifted(s, dx) == s.(x := s.x + dx) && ShiftedCorrected(s, dx) == s
  {
    ShiftDecided(s, dx, ClassifyAt(s, s.active, s.x + dx, s.y));
  }

  /** Rotate: the clockwise rotation stands only when it collides with nothing. */
  ghost function Rotated(s: GameState): (t: GameState)
    requires Valid(s)
    ensures Valid(t)
    ensures t.(active := s.active) == s
  {
    if ClassifyAt(s, s.active.Cw(), s.x, s.y) == NoCollision then s.(active := s.active.Cw()) else s
  }

  /** The state with its field redrawn: a copy of the stack with the active piece drawn at (x, y). */
  function Rendered(s: GameState): (r: GameState)
    requires Valid(s)
    ensures Valid(r)
    ensures r.(field := s.field) == s
  {
    s.(field := Drawn(s.stack, s.active.Shape(), s.x, s.y, None))
  }

  /** How a step ends: a paused game keeps its field, a running one is redrawn. */
  function Finish(s: GameState): (r: GameState)
    requires Valid(s)
    ensures Valid(r)
  {
    if s.isPaused then s else Rendered(s)
  }

  /**
   * The state right after the active piece locks, before the game-over check:
   * the full rows of the last field are cleared into the new stack and
   * counted, the level follows the line count when rows were cleared, the
   * next piece becomes active at the spawn anchor and a fresh piece is queued.
   */
  ghost function Spawned(s: GameState, nextKind: nat): (t: GameState)
    requires Valid(s) && nextKind < KindCount
    ensures Valid(t)
  {
    ClearedShape(s.field);
    var amount := FullCount(s.field);
    var lines := s.lines + amount;
    var t := s.(lines := lines, level := if amount > 0 then lines / 10 + 1 else s.level,
                stack := Cleared(s.field), field := Cleared(s.field),
                active := s.next, next := Piece(nextKind, 0),
                x := s.spawnX, y := s.spawnY);
    SpawnFits(t, t.active);
    t
  }

  /** The freshly spawned piece overlaps the stack at the spawn anchor. */
  ghost predicate Blocked(t: GameState)
    requires Valid(t)
  {
    ClassifyAt(t, t.active, t.x, t.y) == GameOver
  }

  /** The state after the active piece locks: spawned, and over and paused if the new piece is blocked. */
  ghost function Locked(s: GameState, nextKind: nat): (t: GameState)
    requires Valid(s) && nextKind < KindCount
    ensures Valid(t)
  {
    var t := Spawned(s, nextKind);
    if Blocked(t) then t.(isGameOver := true, isPaused := true) else t
  }

  /** The timer periods a lock emits: the new level's interval when rows were cleared, then 0 if the game ended. */
  ghost function LockPeriods(s: GameState, nextKind: nat): (p: seq<real>)
    requires Valid(s) && nextKind < KindCount
    ensures |p| <= 2
    ensures (|p| > 0 && p[0] > 0.0) <==> FullCount(s.field) > 0
    ensures 0.0 in p <==> Blocked(Spawned(s, nextKind))
  {
    var t := Spawned(s, nextKind);
    (if FullCount(s.field) > 0 then [IntervalFromLevel(t.level)] else []) + (if Blocked(t) then [0.0] else [])
  }

  /**
   * What a lock does to the score and the board: every full row of the last
   * field is counted and removed, no full row is left in the new stack, the
   * other rows keep their order below the new empty rows, the level is one
   * more than a tenth of the lines when rows were cleared, and the next piece
   * becomes active at the spawn anchor.
   */
  lemma SpawnedFacts(s: GameState, nextKind: nat)
    requires Valid(s) && nextKind < KindCount
    ensures var t := Spawned(s, nextKind);
            && t.lines == s.lines + FullCount(s.field)
            && (FullCount(s.field) > 0 ==> t.level == t.lines / 10 + 1)
            && (FullCount(s.field) == 0 ==> t.level == s.level && t.stack == s.field)
            && FullCount(t.stack) == 0
            && t.stack == EmptyRows(FullCount(s.field), |s.field[0]|) + Kept(s.field)
            && t.active == s.next && t.next == Piece(nextKind, 0)
            && t.x == s.spawnX && t.y == s.spawnY
            && t.isGameOver == s.isGameOver && t.isPaused == s.isPaused
  {
    ClearedIdempotent(s.field);
    if FullCount(s.field) == 0 {
      ClearedNoFullRow(s.field);
    }
  }

  /**
   * The game ends on a lock exactly when the next piece is blocked at the
   * spawn anchor, and an ended game is paused; nothing else differs from the
   * spawned state.
   */
  lemma LockedFacts(s: GameState, nextKind: nat)
    requires Valid(s) && nextKind < KindCount
    ensures var t, u := Locked(s, nextKind), Spawned(s, nextKind);
            && t.isGameOver == (s.isGameOver || Blocked(u))
            && (t.isGameOver && !s.isGameOver ==> t.isPaused)
            && t.(isGameOver := u.isGameOver, isPaused := u.isPaused) == u
  {
    SpawnedFacts(s, nextKind);
  }

  /** Pause: toggles the pause flag unless the game is over, and stops (0) or restarts the gravity timer. */
  method TogglePause(state: GameState) returns (after: GameState, periods: seq<real>)
    requires Valid(state)
    ensures Valid(after)
    ensures after == (if state.isGameOver then state else state.(isPaused := !state.isPaused))
    ensures periods == (if state.isGameOver then []
                        else [if state.isPaused then IntervalFromLevel(state.level) else 0.0])
  {
    after, periods := state, [];
    if !after.isGameOver {
      after := after.(isPaused := !after.isPaused);
      periods := periods + [if after.isPaused then 0.0 else IntervalFromLevel(after.level)];
    }
  }

  /** Restart: a new running game with fresh pieces that keeps only the colour flag, and a level-1 timer. */
  method RestartGame(state: GameState, newActiveKind: nat, newNextKind: nat) returns (after: GameState, periods: seq<real>)
    requires newActiveKind < KindCount && newNextKind < KindCount
    ensures Valid(after)
    ensures after == NewGameState(newActiveKind, newNextKind).(isPaused := false, toggleColor := state.toggleColor)
    ensures periods == [IntervalFromLevel(1)]
  {
    after := NewGameState(newActiveKind, newNextKind);
    after := after.(isPaused := false);
    after := after.(toggleColor := state.toggleColor);
    periods := [IntervalFromLevel(after.level)];
  }

  /** Clears the full rows of a field and counts them; with none full, the field itself is kept. */
  method ClearFullRows(field: Matrix) returns (cleared: Matrix, amount: nat)
    requires IsField(field)
    ensures amount == FullCount(field)
    ensures cleared == Cleared(field)
  {
    var clearedField;
    clearedField, amount := ClearLines(field);
    cleared := field;
    if amount > 0 {
      cleared := CopyArrayOfArray(clearedField);
    } else {
      ClearedNoFullRow(field);
    }
  }

  /** Clears the full rows into the new stack and spawns the next piece (see Spawned); emits the new interval when rows were cleared. */
  method ClearAndSpawn(state: GameState, newNextKind: nat) returns (after: GameState, periods: seq<real>)
    requires Valid(state)
    requires newNextKind < KindCount
    ensures after == Spawned(state, newNextKind)
    ensures periods == if FullCount(state.field) > 0 then [IntervalFromLevel(after.level)] else []
  {
    var field, amount := ClearFullRows(state.field);
    var stack := CopyArrayOfArray(field);
    var lines := state.lines + amount;
    after := state.(lines := lines, level := if amount > 0 then lines / 10 + 1 else state.level,
                    stack := stack, field := field,
                    active := state.next, next := Piece(newNextKind, 0),
                    x := state.spawnX, y := state.spawnY);
    periods := if amount > 0 then [IntervalFromLevel(after.level)] else [];
  }

  /** Color: flips the colour flag and nothing else. */
  method ToggleColor(state: GameState) returns (after: GameState)
    requires Valid(state)
    ensures Valid(after)
    ensures after == state.(toggleColor := !state.toggleColor)
  {
    after := state.(toggleColor := !state.toggleColor);
  }

  /** Locks the active piece (see Locked) and emits the timer periods of LockPeriods. */
  method LockPiece(state: GameState, newNextKind: nat) returns (after: GameState, periods: seq<real>)
    requires Valid(state)
    requires newNextKind < KindCount
    ensures after == Locked(state, newNextKind)
    ensures periods == LockPeriods(state, newNextKind)
  {
    after, periods := ClearAndSpawn(state, newNextKind);
    var spawnCollision := DetectCollision(after.stack, after.active.Shape(), after.x, after.y, after.spawnX, after.spawnY);
    assert spawnCollision == GameOver <==> Blocked(after);
    if spawnCollision == GameOver {
      after := after.(isGameOver := true, isPaused := true);
      periods := periods + [0.0];
    }
  }

  /**
   * Fall and Down: the piece moves one row down; on the bottom wall or a
   * brick it locks instead.
   */
  method ApplyGravity(state: GameState, newNextKind: nat) returns (after: GameState, periods: seq<real>, locked: bool)
    requires Valid(state)
    requires newNextKind < KindCount
    ensures Valid(after)
    ensures locked == Lands(state)
    ensures !locked ==> after == state.(y := state.y + 1) && periods == []
    ensures locked ==> after == Locked(state, newNextKind) && periods == LockPeriods(state, newNextKind)
  {
    var collision := DetectCollision(state.stack, state.active.Shape(), state.x, state.y + 1, state.spawnX, state.spawnY);
    assert collision == ClassifyAt(state, state.active, state.x, state.y + 1);
    locked := Locks(collision);
    assert locked == Lands(state);
    if locked {
      after, periods := LockPiece(state, newNextKind);
    } else {
      ClassifyBelow(state.stack, state.active.Shape(), state.x, state.y, state.spawnX, state.spawnY);
      after, periods := state.(y := state.y + 1), [];
    }
  }

  /**
   * Left (dx = -1) and Right (dx = 1): the move is undone when the piece
   * would hit the wall on that side or BrickOther; any other result keeps it.
   */
  method ApplyShift(state: GameState, dx: int) returns (after: GameState)
    requires Valid(state) && (dx == -1 || dx == 1)
    ensures after == Shifted(state, dx)
  {
    // The piece is moved, tested, and moved back when it hits that wall or a brick.
    var collision := DetectCollision(state.stack, state.active.Shape(), state.x + dx, state.y, state.spawnX, state.spawnY);
    assert collision == ClassifyAt(state, state.active, state.x + dx, state.y);
    ShiftDecided(state, dx, collision);
    if Stops(collision, dx) {
      after := state;
    } else {
      after := state.(x := state.x + dx);
    }
  }

  /** Once the collision one column over is known, it alone decides the sideways move. */
  lemma ShiftDecided(s: GameState, dx: int, c: CollisionType)
    requires Valid(s) && (dx == -1 || dx == 1)
    requires c == ClassifyAt(s, s.active, s.x + dx, s.y)
    ensures Shifted(s, dx) == if Stops(c, dx) then s else s.(x := s.x + dx)
  {
  }

  /** Rotate: the clockwise rotation stands only when it collides with nothing; otherwise it is turned back. */
  method ApplyRotate(state: GameState) returns (after: GameState)
    requires Valid(state)
    ensures after == Rotated(state)
  {
    var next := state;
    next := next.(active := next.active.Cw());
    var collision := DetectCollision(next.stack, next.active.Shape(), next.x, next.y, next.spawnX, next.spawnY);
    assert collision == ClassifyAt(state, state.active.Cw(), state.x, state.y);
    if collision != NoCollision {
      PieceRoundTrip(state.active);
      next := next.(active := next.active.Ccw());
    }
    after := next;
  }

  /** Redraws the field from a copy of the stack. */
  method Render(state: GameState) returns (after: GameState)
    requires Valid(state)
    ensures after == Rendered(state)
  {
    var fieldCopy := CopyArrayOfArray(state.stack);
    var drawn := DrawShape(fieldCopy, state.active.Shape(), state.x, state.y, None);
    after := state.(field := drawn);
  }

  /**
   * The part of a step that runs only in a running game: gravity, the
   * moves and the final redraw. Other events only redraw.
   */
  method Advance(state: GameState, event: GameEvent, newNextKind: nat) returns (after: GameState, periods: seq<real>)
    requires Valid(state) && !state.isPaused
    requires newNextKind < KindCount
    ensures Valid(after) && Shows(after)
    ensures !IsMove(event) ==> after == Rendered(state) && periods == []
    ensures event.Left? ==> after == Rendered(Shifted(state, -1)) && periods == []
    ensures event.Right? ==> after == Rendered(Shifted(state, 1)) && periods == []
    ensures event.Rotate? ==> after == Rendered(Rotated(state)) && periods == []
    ensures (event.Fall? || event.Down?) && !Lands(state) ==> after == Rendered(state.(y := state.y + 1)) && periods == []
    ensures (event.Fall? || event.Down?) && Lands(state) ==>
              after == Finish(Locked(state, newNextKind)) && periods == LockPeriods(state, newNextKind)
  {
    var next := state;
    periods := [];
    if event.Fall? || event.Down? {
      var locked;
      next, periods, locked := ApplyGravity(next, newNextKind);
      if next.isPaused {
        return next, periods;
      }
    } else if event.Left? {
      next := ApplyShift(next, -1);
    } else if event.Right? {
      next := ApplyShift(next, 1);
    } else if event.Rotate? {
      next := ApplyRotate(next);
    }

    after := Render(next);
  }

  /** A running game's field is its stack with the active piece drawn in. */
  ghost predicate Shows(s: GameState)
    requires Valid(s)
  {
    !s.isPaused ==> s.field == Drawn(s.stack, s.active.Shape(), s.x, s.y, None)
  }

  /** Pause toggles unless the game is over, and stops or restarts the timer. */
  ghost predicate PauseStep(state: GameState, after: GameState, periods: seq<real>)
    requires Valid(state)
  {
    && after == Finish(if state.isGameOver then state else state.(isPaused := !state.isPaused))
    && periods == (if state.isGameOver then []
                   else [if state.isPaused then IntervalFromLevel(state.level) else 0.0])
  }

  /** Restart starts a new running game that keeps only the colour flag, and restarts the timer. */
  ghost predicate RestartStep(state: GameState, newActiveKind: nat, newNextKind: nat, after: GameState, periods: seq<real>)
    requires newActiveKind < KindCount && newNextKind < KindCount
  {
    && after == Rendered(NewGameState(newActiveKind, newNextKind).(isPaused := false, toggleColor := state.toggleColor))
    && periods == [IntervalFromLevel(1)]
  }

  /** Color flips the colour flag only. */
  ghost predicate ColorStep(state: GameState, after: GameState, periods: seq<real>)
    requires Valid(state)
  {
    after == Finish(state.(toggleColor := !state.toggleColor)) && periods == []
  }

  /**
   * A move or a gravity tick. A paused game ignores it. Left and Right are
   * undone on the matching wall or on a brick (see Shifted); a clockwise
   * rotation stands only when it collides with nothing (see Rotated); Fall
   * and Down move one row down unless the piece lands, in which case it locks.
   */
  ghost predicate MoveStep(state: GameState, event: GameEvent, newNextKind: nat, after: GameState, periods: seq<real>)
    requires Valid(state) && newNextKind < KindCount
  {
    && (state.isPaused ==> after == state && periods == [])
    && (!state.isPaused && event.Left? ==> after == Rendered(Shifted(state, -1)) && periods == [])
    && (!state.isPaused && event.Right? ==> after == Rendered(Shifted(state, 1)) && periods == [])
    && (!state.isPaused && event.Rotate? ==> after == Rendered(Rotated(state)) && periods == [])
    && (!state.isPaused && (event.Fall? || event.Down?) && !Lands(state) ==>
          after == Rendered(state.(y := state.y + 1)) && periods == [])
    && (!state.isPaused && (event.Fall? || event.Down?) && Lands(state) ==>
          after == Finish(Locked(state, newNextKind)) && periods == LockPeriods(state, newNextKind))
  }

  /**
   * The reducer's specification: what one event does to the state and which
   * timer periods it requests.
   */
  ghost predicate Step(state: GameState, event: GameEvent, newActiveKind: nat, newNextKind: nat,
                       after: GameState, periods: seq<real>)
    requires Valid(state) && newActiveKind < KindCount && newNextKind < KindCount
  {
    match event
    case Pause => PauseStep(state, after, periods)
    case Restart => RestartStep(state, newActiveKind, newNextKind, after, periods)
    case Color => ColorStep(state, after, periods)
    case _ => MoveStep(state, event, newNextKind, after, periods)
  }

  /** The level is one more than a tenth of the cleared lines, as it is in a new game. */
  ghost predicate LevelFollowsLines(s: GameState) {
    s.level == s.lines / 10 + 1
  }

  /**
   * Every step keeps the level in step with the line count, and only a
   * restart lowers the line count or the level.
   */
  lemma StepKeepsLevel(state: GameState, event: GameEvent, newActiveKind: nat, newNextKind: nat,
                       after: GameState, periods: seq<real>)
    requires Valid(state) && newActiveKind < KindCount && newNextKind < KindCount
    requires Step(state, event, newActiveKind, newNextKind, after, periods)
    requires LevelFollowsLines(state)
    ensures LevelFollowsLines(after)
    ensures !event.Restart? ==> state.lines <= after.lines && state.level <= after.level
  {
    match event
    case Pause =>
    case Restart =>
    case Color =>
    case _ =>
      MoveKeepsLevel(state, event, newNextKind, after, periods);
  }

  /** A move or a gravity tick keeps the level in step with the line count and lowers neither. */
  lemma MoveKeepsLevel(state: GameState, event: GameEvent, newNextKind: nat, after: GameState, periods: seq<real>)
    requires Valid(state) && newNextKind < KindCount
    requires IsMove(event) && MoveStep(state, event, newNextKind, after, periods)
    requires LevelFollowsLines(state)
    ensures LevelFollowsLines(after)
    ensures state.lines <= after.lines && state.level <= after.level
  {
    if state.isPaused {
    } else if event.Left? {
      assert after == Rendered(Shifted(state, -1));
    } else if event.Right? {
      assert after == Rendered(Shifted(state, 1));
    } else if event.Rotate? {
      assert after == Rendered(Rotated(state));
    } else if !Lands(state) {
      assert after == Rendered(state.(y := state.y + 1));
    } else {
      assert after == Finish(Locked(state, newNextKind));
      LockKeepsLevel(state, newNextKind);
    }
  }

  /** A lock keeps the level in step with the line count and lowers neither. */
  lemma LockKeepsLevel(s: GameState, nextKind: nat)
    requires Valid(s) && nextKind < KindCount && LevelFollowsLines(s)
    ensures var t := Finish(Locked(s, nextKind));
            LevelFollowsLines(t) && s.lines <= t.lines && s.level <= t.level
  {
    SpawnedFacts(s, nextKind);
    LockedFacts(s, nextKind);
  }

  /** A finished game stays finished, paused and unchanged in its stack until it is restarted. */
  lemma GameOverSticky(state: GameState, event: GameEvent, newActiveKind: nat, newNextKind: nat,
                       after: GameState, periods: seq<real>)
    requires Valid(state) && newActiveKind < KindCount && newNextKind < KindCount
    requires Step(state, event, newActiveKind, newNextKind, after, periods)
    requires state.isGameOver && state.isPaused && !event.Restart?
    ensures after.isGameOver && after.isPaused && after.stack == state.stack && periods == []
  {
  }

  /** A sideways move from a place that collides with nothing is undone by the opposite move. */
  lemma ShiftBack(s: GameState, dx: int)
    requires Valid(s) && (dx == -1 || dx == 1)
    requires ClassifyAt(s, s.active, s.x, s.y) == NoCollision
    requires !ShiftBlocked(s, dx)
    ensures Shifted(s, dx) == s.(x := s.x + dx)
    ensures Shifted(Shifted(s, dx), -dx) == s
  {
    var t := s.(x := s.x + dx);
    ShiftDecided(s, dx, ClassifyAt(s, s.active, s.x + dx, s.y));
    assert t.x + -dx == s.x;
    ShiftDecided(t, -dx, ClassifyAt(s, s.active, s.x, s.y));
  }

  /** The active piece covers no brick of the stack. */
  ghost predicate Clear(s: GameState)
    requires Valid(s)
  {
    !Overlaps(s.stack, s.active.Shape(), s.x, s.y)
  }

  /**
   * What the game keeps from its first state on: the state is well-formed,
   * the piece is never above the spawn row, an ended game is paused, and
   * while the game is not over the active piece covers no brick.
   */
  ghost predicate Sound(s: GameState) {
    && Valid(s) && s.spawnY <= s.y
    && (s.isGameOver ==> s.isPaused)
    && (!s.isGameOver ==> Clear(s))
  }

  /** A new game is sound: its stack is empty. */
  lemma NewGameSound(activeKind: nat, nextKind: nat)
    requires activeKind < KindCount && nextKind < KindCount
    ensures Sound(NewGameState(activeKind, nextKind))
    ensures Sound(Rendered(NewGameState(activeKind, nextKind).(isPaused := false)))
  {
    var s := NewGameState(activeKind, nextKind);
    assert Clear(s) by {
      forall row, col ensures !Hit(s.stack, s.active.Shape(), s.x, s.y, row, col) {
      }
    }
  }

  /** A piece that does not land falls onto free cells. */
  lemma FallKeepsClear(s: GameState)
    requires Valid(s) && s.spawnY <= s.y && !Lands(s)
    ensures Valid(s.(y := s.y + 1)) && Clear(s.(y := s.y + 1))
  {
    ClassifyBelow(s.stack, s.active.Shape(), s.x, s.y, s.spawnX, s.spawnY);
  }

  /** A sideways move that the corrected rule lets stand puts the piece on free cells. */
  lemma ShiftKeepsClear(s: GameState, dx: int)
    requires Valid(s) && (dx == -1 || dx == 1)
    requires ShiftedCorrected(s, dx) != s
    ensures ShiftedCorrected(s, dx) == s.(x := s.x + dx)
    ensures Valid(s.(x := s.x + dx)) && Clear(s.(x := s.x + dx))
  {
    ClassifySideways(s.stack, s.active.Shape(), s.x, s.y, dx, s.spawnX, s.spawnY);
  }

  /** Every sideways move of the corrected rule leaves a clear piece clear. */
  lemma ShiftedClear(s: GameState, dx: int)
    requires Valid(s) && (dx == -1 || dx == 1) && Clear(s)
    ensures Clear(ShiftedCorrected(s, dx))
  {
    if ShiftedCorrected(s, dx) != s {
      ShiftKeepsClear(s, dx);
    }
  }

  /** A rotation that stands puts the piece on free cells; one that does not changes nothing. */
  lemma RotatedClear(s: GameState)
    requires Valid(s) && Clear(s)
    ensures Clear(Rotated(s))
  {
  }

  /**
   * A lock leaves a sound state: either the spawned piece is clear of the
   * new stack, or the game is over and paused.
   */
  lemma LockKeepsSound(s: GameState, nextKind: nat)
    requires Sound(s) && nextKind < KindCount
    ensures Sound(Finish(Locked(s, nextKind)))
  {
    var t, u := Locked(s, nextKind), Spawned(s, nextKind);
    SpawnedFacts(s, nextKind);
    LockedFacts(s, nextKind);
    if !t.isGameOver {
      assert !Blocked(u) && t == u;
      assert Clear(t);
    }
  }

  /**
   * The reducer with the corrected sideways rule: a running game's Left and
   * Right use ShiftedCorrected; every other case is the reducer's own Step.
   */
  ghost predicate CorrectedStep(state: GameState, event: GameEvent, newActiveKind: nat, newNextKind: nat,
                                after: GameState, periods: seq<real>)
    requires Valid(state) && newActiveKind < KindCount && newNextKind < KindCount
  {
    if !state.isPaused && (event.Left? || event.Right?) then
      after == Rendered(ShiftedCorrected(state, if event.Left? then -1 else 1)) && periods == []
    else
      Step(state, event, newActiveKind, newNextKind, after, periods)
  }

  /** A move or a gravity tick of the corrected reducer keeps the state sound. */
  lemma MoveKeepsSound(state: GameState, event: GameEvent, newActiveKind: nat, newNextKind: nat,
                       after: GameState, periods: seq<real>)
    requires Sound(state) && newActiveKind < KindCount && newNextKind < KindCount
    requires IsMove(event) && CorrectedStep(state, event, newActiveKind, newNextKind, after, periods)
    ensures Sound(after)
  {
    if state.isPaused {
      assert MoveStep(state, event, newNextKind, after, periods);
    } else if event.Left? {
      assert after == Rendered(ShiftedCorrected(state, -1));
      ShiftedClear(state, -1);
    } else if event.Right? {
      assert after == Rendered(ShiftedCorrected(state, 1));
      ShiftedClear(state, 1);
    } else {
      assert MoveStep(state, event, newNextKind, after, periods);
      MoveOtherKeepsSound(state, event, newNextKind, after, periods);
    }
  }

  /** Rotation and gravity keep a running state sound. */
  lemma MoveOtherKeepsSound(state: GameState, event: GameEvent, newNextKind: nat, after: GameState, periods: seq<real>)
    requires Sound(state) && newNextKind < KindCount && !state.isPaused
    requires event.Rotate? || event.Fall? || event.Down?
    requires MoveStep(state, event, newNextKind, after, periods)
    ensures Sound(after)
  {
    if event.Rotate? {
      assert after == Rendered(Rotated(state));
      RotatedClear(state);
    } else if !Lands(state) {
      assert after == Rendered(state.(y := state.y + 1));
      FallKeepsClear(state);
    } else {
      assert after == Finish(Locked(state, newNextKind));
      LockKeepsSound(state, newNextKind);
    }
  }

  /**
   * Every step of the corrected reducer keeps the state sound: the active
   * piece of a running game never covers a brick of the stack, and a game
   * that is over stays paused.
   */
  lemma StepKeepsSound(state: GameState, event: GameEvent, newActiveKind: nat, newNextKind: nat,
                       after: GameState, periods: seq<real>)
    requires Sound(state) && newActiveKind < KindCount && newNextKind < KindCount
    requires CorrectedStep(state, event, newActiveKind, newNextKind, after, periods)
    ensures Sound(after)
  {
    match event
    case Pause =>
    case Restart =>
      NewGameSound(newActiveKind, newNextKind);
    case Color =>
    case _ =>
      MoveKeepsSound(state, event, newActiveKind, newNextKind, after, periods);
  }

  /** The empty board with one brick, in row 1 under the spawn anchor's left column. */
  function BrickUnderSpawn(): (m: Matrix)
    ensures IsField(m) && |m| == GridSizeY && |m[0]| == GridSizeX
    ensures forall i, j :: 0 <= i < |m| && 0 <= j < |m[i]| ==> (IsEmptyCell(m[i][j]) <==> !(i == 1 && j == SpawnX))
  {
    ClearField()[1 := ClearField()[1][SpawnX := 1]]
  }

  /** On that board the upright I piece is clear one column right of the anchor and on the brick at the anchor. */
  lemma UprightIBesideBrick()
    ensures var m := Piece(1, 1).Shape();
            !Overlaps(BrickUnderSpawn(), m, SpawnX + 1, 0) && Overlaps(BrickUnderSpawn(), m, SpawnX, 0)
  {
    var stack, m := BrickUnderSpawn(), Piece(1, 1).Shape();
    UprightI();
    UprightBarBounds(Piece(1, 1).Shape());
    var x := SpawnX + 1;
    forall row, col ensures !Hit(stack, m, x, 0, row, col) {
    }
    assert Hit(stack, m, SpawnX, 0, 1, SpawnX);
  }

  /**
   * The reducer as written steps from a sound running state into an unsound
   * one: the upright I piece one column right of the spawn anchor moves left
   * onto a brick below the anchor. The move is reported as GameOver, which
   * the sideways test does not treat as a blocking collision; the corrected
   * rule keeps the piece where it is.
   */
  lemma ShiftOntoSpawnOverlaps()
    ensures var s := GameState(false, false, false, 1, 0, SpawnX + 1, 0, Piece(1, 1), Piece(0, 0),
                               BrickUnderSpawn(), BrickUnderSpawn(), SpawnX, SpawnY);
            && Sound(s) && !s.isPaused
            && ClassifyAt(s, s.active, s.x - 1, s.y) == GameOver
            && Shifted(s, -1) == s.(x := SpawnX)
            && Step(s, Left, 0, 0, Rendered(Shifted(s, -1)), [])
            && !Sound(Rendered(Shifted(s, -1)))
            && ShiftedCorrected(s, -1) == s
  {
    UprightI();
    UprightBarBounds(Piece(1, 1).Shape());
    UprightIBesideBrick();
  }

  /** A Pause key press: toggle, then redraw if the game now runs. */
  method OnPause(state: GameState) returns (after: GameState, periods: seq<real>)
    requires Valid(state)
    ensures Valid(after) && Shows(after)
    ensures PauseStep(state, after, periods)
  {
    after, periods := TogglePause(state);
    if !after.isPaused {
      after := Render(after);
    }
  }

  /** A Restart key press: a new running game, drawn. */
  method OnRestart(state: GameState, newActiveKind: nat, newNextKind: nat) returns (after: GameState, periods: seq<real>)
    requires newActiveKind < KindCount && newNextKind < KindCount
    ensures Valid(after) && Shows(after)
    ensures RestartStep(state, newActiveKind, newNextKind, after, periods)
  {
    after, periods := RestartGame(state, newActiveKind, newNextKind);
    after := Render(after);
  }

  /** A Color key press: flip the colour flag, then redraw if the game runs. */
  method OnColor(state: GameState) returns (after: GameState, periods: seq<real>)
    requires Valid(state)
    ensures Valid(after) && Shows(after)
    ensures ColorStep(state, after, periods)
  {
    after := ToggleColor(state);
    if !after.isPaused {
      after := Render(after);
    }
    periods := [];
  }

  /** A move or a gravity tick: ignored while paused, otherwise applied and drawn. */
  method OnMove(state: GameState, event: GameEvent, newNextKind: nat) returns (after: GameState, periods: seq<real>)
    requires Valid(state) && IsMove(event)
    requires newNextKind < KindCount
    ensures Valid(after) && Shows(after)
    ensures MoveStep(state, event, newNextKind, after, periods)
  {
    if state.isPaused {
      return state, [];
    }
    after, periods := Advance(state, event, newNextKind);
  }

  /**
   * One step of the game. `newActiveKind` and `newNextKind` stand for the
   * kinds the game draws at random: a restart draws both pieces, a lock
   * draws the next one.
   */
  method HandleEvent(state: GameState, event: GameEvent, newActiveKind: nat, newNextKind: nat)
    returns (after: GameState, periods: seq<real>)
    requires Valid(state)
    requires newActiveKind < KindCount && newNextKind < KindCount
    ensures Valid(after) && Shows(after)
    ensures Step(state, event, newActiveKind, newNextKind, after, periods)
  {
    match event {
      case Pause =>
        after, periods := OnPause(state);
      case Restart =>
        after, periods := OnRestart(state, newActiveKind, newNextKind);
      case Color =>
        after, periods := OnColor(state);
      case _ =>
        after, periods := OnMove(state, event, newNextKind);
    }
  }
}
