# Falling-block game engine: a Dafny model

This project models the engine of a small falling-block puzzle game (a
Tetris variant on a 15-row, 10-column board).

**Pieces** (`tetrimino.dfy`). There are seven kinds, each with one, two or
four rotation states. Every state is a 3-by-3 matrix. Piece objects update
their rotation index in place.

**Board helpers** (`util.dfy`):
- build an empty board and copy a board;
- compute the gravity interval for a level;
- compute the tight bounding box of a shape;
- classify where a piece would sit on the stack (a side wall, the bottom
  wall, a brick, a brick at the spawn anchor meaning game over, or nothing);
- draw a shape onto a field;
- clear full rows.

**Game events** (`events.dfy`): the eight game events.

**The reducer** (`streams.dfy`): the game state and the reducer that
maps a state and an event to the next state. It covers pause, restart,
colour toggle, gravity and locking, sideways moves, rotation and the final
redraw.

Boards are `seq<seq<int>>`, where 0 is an empty cell. Object state the
original updates in place is modelled as follows:
- A piece is a `class` with a `Piece` value view.
- A game state is a datatype value. The reducer copies the state before it
  changes it, so a value fits.

Every imperative routine of the original is a `method` proved against a
specification function:
- the bounding-box scan (`CalculateBounds` against `BoundsOf`);
- the collision loop (`DetectCollision` against `Classify`);
- the drawing loop (`DrawShape` against `Drawn`);
- the line-clearing scan (`ClearLines` against `EmptyRows` and `Kept`);
- the reducer (`HandleEvent` against `Step`).

`Step` states the reducer as written, including its sideways rule, which
lets a move stand when the collision test reports GameOver (see Findings).
`CorrectedStep` is the same reducer with the corrected sideways rule,
`ShiftedCorrected`.

The properties proved about those specifications:
- clearing is idempotent;
- the bounding box is tight;
- rotations undo each other;
- the level tracks the line count (about `Step`);
- under `CorrectedStep`, a sound state stays sound: a running game's active
  piece never covers a brick, and an ended game stays paused. Under `Step`
  it does not, and a concrete counterexample is proved.

Randomness, the timer and keyboard input are parameters:
- the kinds a restart or a lock draw are arguments;
- the timer restarts the reducer requests are returned as a list of periods
  (0 stops the timer);
- a key press is its key name.

## Model

| member | source | states |
|---|---|---|
| Events.GameEvent.Name | src/game/events.tsx:1-38 | each event kind's `name` label |
| Events.NameIdentifiesKind | src/game/events.tsx:1-38 | two events have the same name exactly when they are the same event |
| Util.IsEmptyCell | src/game/util.tsx:10 | a cell is empty exactly when it holds 0 |
| Util.SpawnX | src/game/util.tsx:13 | the spawn anchor's column, 4 |
| Util.SpawnY | src/game/util.tsx:13 | the spawn anchor's row, 0 |
| Util.CollisionType | src/game/util.tsx:15-22 | the six collision results: none, left wall, right wall, bottom wall, a brick, and a brick at the spawn anchor (game over) |
| Util.CreateField | src/game/util.tsx:34 | `height` rows of `width` cells, every cell equal to the fill value |
| Util.ClearField | src/game/util.tsx:33 | the empty board: rectangular, 15 rows of 10 cells, all empty |
| Util.CopyArrayOfArray | src/game/util.tsx:36-45 | the nested copy loop yields a matrix equal to its input, row by row and cell by cell |
| Util.IntervalFromLevel | src/game/util.tsx:47-51 | the gravity interval is positive |
| Util.IntervalFormula | src/game/util.tsx:47-51 | interval times (level + 3) is 4000 ms, so the interval is inversely proportional to level + 3 |
| Util.IntervalExamples | src/game/util.tsx:47-51 | level 1 ticks every 1000 ms and level 5 every 500 ms |
| Util.IntervalDecreasing | src/game/util.tsx:47-51 | a higher level has a strictly shorter interval |
| Util.FilledRowsMembers | src/game/util.tsx:59-63 | the row scan collects exactly the indices of rows holding a filled cell |
| Util.FilledColsOfRowMembers | src/game/util.tsx:63-67 | the scan of one row collects exactly its filled cells' column indices |
| Util.FilledColsMembers | src/game/util.tsx:59-68 | the column scan over all rows collects exactly the columns holding a filled cell |
| Util.Min | src/game/util.tsx:70 | the result is an element of the list and no element is smaller |
| Util.Max | src/game/util.tsx:71 | the result is an element of the list and no element is larger |
| Util.FilledIndicesNonEmpty | src/game/util.tsx:59-73 | a shape with a filled cell yields non-empty row and column index lists |
| Util.BoundsOf | src/game/util.tsx:55-83 | the box lies inside the matrix, and width and height are end minus start plus one |
| Util.BoundsTight | src/game/util.tsx:55-83 | the box's first and last rows and columns each hold a filled cell, and every filled cell lies inside the box |
| Util.BoundsWithin | src/game/util.tsx:55-83 | the box of a w-by-h shape is at most w wide and h high |
| Util.UprightBarBounds | src/game/util.tsx:55-83 | the upright I shape's box is column 1, rows 0 to 2: one wide and three high |
| Util.CalculateBounds | src/game/util.tsx:55-83 | the two-pass scan followed by min and max returns exactly the tight box `BoundsOf` |
| Util.Classify | src/game/util.tsx:85-122 | the result is a wall exactly when the box leaves the field, and GameOver only at the spawn anchor |
| Util.DetectCollision | src/game/util.tsx:85-122 | the walls are tested left, right, bottom; the nested loop then reports the first brick hit, which is GameOver at the spawn anchor and BrickOther elsewhere, or NoCollision; all of this equals `Classify` |
| Util.ClassifyBelow | src/game/util.tsx:93-104 | a piece inside the walls moved one row down hits no side wall |
| Util.ClassifySideways | src/game/util.tsx:93-104 | a piece inside the walls moved one column hits neither the bottom nor the opposite wall |
| Util.Paint | src/game/util.tsx:131-135 | a filled shape cell is painted with `color` when one is given and non-zero, else with its own value |
| Util.Drawn | src/game/util.tsx:124-141 | drawing keeps the field's number of rows and each row's width |
| Util.DrawnCells | src/game/util.tsx:124-141 | exactly the cells under the shape's filled cells take the shape's value (or the colour when one is given and non-zero); every other cell is unchanged |
| Util.DrawnCellOfShape | src/game/util.tsx:124-141 | a filled shape cell drawn with its box inside the field lands on the field cell offset by the box's start and takes its painted value |
| Util.DrawnKeepsFilled | src/game/util.tsx:124-141 | no filled cell of the piece is lost: every one appears on the drawn field with its painted value |
| Util.DrawShape | src/game/util.tsx:124-141 | the copy-and-paint loops produce `Drawn` |
| Util.Full | src/game/util.tsx:150 | a row is full when every cell is positive |
| Util.FullCount | src/game/util.tsx:150 | the number of full rows is at most the number of rows |
| Util.Kept | src/game/util.tsx:150-157 | the kept rows and the full rows together account for every row |
| Util.KeptRows | src/game/util.tsx:150-157 | every kept row comes from the input, and none is full |
| Util.EmptyRow | src/game/util.tsx:157 | an inserted row has the field's width |
| Util.EmptyRows | src/game/util.tsx:157 | n rows, each an all-zero row of the given width |
| Util.Cleared | src/game/util.tsx:143-164 | the cleared field: as many empty rows as there were full rows, on top of the rows that were not full, in order |
| Util.ScanStep | src/game/util.tsx:149-161 | one pass of the bottom-up scan keeps its invariant: a full row is spliced out, an empty row is put on top and the same index is re-examined; otherwise the scan moves up |
| Util.ExamineRow | src/game/util.tsx:150-160 | the loop body keeps the scan invariant and makes progress |
| Util.ClearLines | src/game/util.tsx:143-164 | the amount is the number of full rows, and the result is that many empty rows on top of the non-full rows in their original order |
| Util.FullCountAppend | src/game/util.tsx:150 | full rows of a concatenation add up |
| Util.KeptAppend | src/game/util.tsx:150-157 | kept rows of a concatenation concatenate |
| Util.KeptAllWhenNoneFull | src/game/util.tsx:150-157 | with no full row, every row is kept |
| Util.EmptyRowsNotFull | src/game/util.tsx:157 | inserted empty rows are never full and all are kept |
| Util.KeptNotFull | src/game/util.tsx:150-157 | no kept row is full |
| Util.ClearedShape | src/game/util.tsx:143-164 | clearing keeps the row count and the row width of a rectangular field |
| Util.ClearedNoFullRow | src/game/util.tsx:143-164 | with no full row the field comes back unchanged |
| Util.ClearedIdempotent | src/game/util.tsx:143-164 | a cleared field has no full row, so clearing it again changes nothing |
| Util.ClearedExample | src/tests/util.test.tsx:244-259 | the simple-line test case: one full bottom row is removed, the rest moves down, and an empty row goes on top |
| Tetriminos.Catalog | src/game/tetrimino.tsx:32-169 | the rotation states of the seven kinds, O, I, T, L, J, Z, S, cell for cell |
| Tetriminos.CatalogWellFormed | src/game/tetrimino.tsx:32-169 | seven kinds with one (O), two (I) or four rotation states, each 3-by-3 with its centre filled |
| Tetriminos.RotateCwIndex | src/game/tetrimino.tsx:10-12 | the next index wraps to 0 after the last one |
| Tetriminos.RotateCcwIndex | src/game/tetrimino.tsx:14-18 | the previous index stays within the rotation count |
| Tetriminos.RotateRoundTrip | src/game/tetrimino.tsx:10-18 | the clockwise and counter-clockwise index steps undo each other in both orders |
| Tetriminos.Piece.Cw | src/game/tetrimino.tsx:10-12 | a clockwise turn keeps the kind and yields a valid rotation |
| Tetriminos.Piece.Ccw | src/game/tetrimino.tsx:14-18 | a counter-clockwise turn keeps the kind and yields a valid rotation |
| Tetriminos.Piece.Shape | src/game/tetrimino.tsx:20-27 | the shape is a 3-by-3 matrix with a filled cell |
| Tetriminos.ShapeCells | src/game/tetrimino.tsx:20-27 | a shape cell is filled exactly where the catalog cell is, and a filled cell holds kind + 1 |
| Tetriminos.PieceRoundTrip | src/game/tetrimino.tsx:10-18 | turning a piece one way and back restores it |
| Tetriminos.FourTurns | src/game/tetrimino.tsx:10-12 | four clockwise turns restore every piece |
| Tetriminos.UprightI | src/game/tetrimino.tsx:48-52 | the I piece's second rotation is the middle column, coloured 2 |
| Tetriminos.SquareRotationIsIdentity | src/game/tetrimino.tsx:33-40 | the O piece has one rotation state, so turning it changes nothing |
| Tetriminos.Tetrimino.constructor | src/game/tetrimino.tsx:5-8 | a new piece is the given kind in rotation 0 |
| Tetriminos.Tetrimino.RotateCW | src/game/tetrimino.tsx:10-12 | the rotation index advances in place, as `Piece.Cw` |
| Tetriminos.Tetrimino.RotateCCW | src/game/tetrimino.tsx:14-18 | the rotation index steps back in place, as `Piece.Ccw` |
| Tetriminos.Tetrimino.Shape | src/game/tetrimino.tsx:20-27 | the piece's colour-coded shape is a 3-by-3 matrix with a filled cell |
| Streams.GameState | src/game/streams.tsx:28-44 | the game state's fields: pause, game over and colour flags, level, lines, position, active and next piece, stack, field and spawn anchor |
| Streams.NewGameState | src/game/streams.tsx:46-65 | a new game is paused, not over, colour off, level 1, 0 lines, pieces at the spawn anchor in rotation 0, with an empty 15-by-10 stack and a field equal to it |
| Streams.SpawnFits | src/game/streams.tsx:54-58 | every piece fits inside the walls at the spawn anchor |
| Streams.FromKeyboardEvent | src/game/streams.tsx:68-87 | each listed key maps to its event and each event comes only from its keys; no key yields Fall, and any other key yields nothing |
| Streams.Shifted | src/game/streams.tsx:179-193 | a sideways move changes only `x` and keeps the state well-formed; only the wall on that side or BrickOther undoes it |
| Streams.ShiftedCorrected | src/game/streams.tsx:179-193 | the corrected sideways move, which a GameOver result undoes too, changes only `x` and keeps the state well-formed |
| Streams.ShiftRulesDiffer | src/game/streams.tsx:179-193 | the two sideways rules differ exactly on a GameOver result, which needs the move to end at the spawn anchor; there the original moves and the corrected rule stays |
| Streams.Rotated | src/game/streams.tsx:195-200 | a rotation changes only the active piece and keeps the state well-formed |
| Streams.Rendered | src/game/streams.tsx:202-203 | a redraw changes only the field |
| Streams.Finish | src/game/streams.tsx:143-145 | a step's end, redrawn or not, keeps the state well-formed |
| Streams.Spawned | src/game/streams.tsx:154-167 | the state after clearing and spawning is well-formed |
| Streams.Locked | src/game/streams.tsx:154-175 | the state after a lock is well-formed |
| Streams.SpawnedFacts | src/game/streams.tsx:154-167 | the full rows are added to the line count and removed from the new stack, which then holds no full row; the other rows keep their order under new empty rows; the level is lines / 10 + 1 when rows were cleared and unchanged otherwise; the next piece becomes active at the spawn anchor |
| Streams.LockPeriods | src/game/streams.tsx:154-175 | at most two periods; the first is a positive interval exactly when rows were cleared, and a 0 (timer stop) is among them exactly when the spawned piece is blocked |
| Streams.LockedFacts | src/game/streams.tsx:169-175 | the game ends on a lock exactly when the spawned piece is blocked at the anchor; the ended game is paused; nothing else changes |
| Streams.TogglePause | src/game/streams.tsx:124-130 | pause flips unless the game is over, and requests the level's interval on resume and 0 on pause |
| Streams.RestartGame | src/game/streams.tsx:132-137 | a new running game that keeps only the colour flag, with a level-1 interval |
| Streams.ClearFullRows | src/game/streams.tsx:155-159 | counts the full rows and returns the cleared field, or the same field when none is full |
| Streams.ClearAndSpawn | src/game/streams.tsx:154-167 | the lock's clearing and spawning produce `Spawned`, and request the new level's interval exactly when rows were cleared |
| Streams.ToggleColor | src/game/streams.tsx:139-141 | only the colour flag flips |
| Streams.LockPiece | src/game/streams.tsx:154-175 | the lock produces `Locked`; the periods are the new interval when rows were cleared, then 0 when the game ends |
| Streams.ApplyGravity | src/game/streams.tsx:149-177 | the piece locks exactly when one row lower it would hit the bottom wall or a brick; otherwise it moves one row down |
| Streams.ApplyShift | src/game/streams.tsx:179-193 | move, test and move back on the wall on that side or BrickOther: the result is `Shifted` |
| Streams.ApplyRotate | src/game/streams.tsx:195-200 | turn, test and turn back unless there is no collision: the result is `Rotated` |
| Streams.Render | src/game/streams.tsx:202-203 | copying the stack and drawing the active piece gives `Rendered` |
| Streams.Advance | src/game/streams.tsx:147-205 | a running game's step per event: gravity or lock, shift, rotation, then a redraw unless the lock ended the game; the field then shows the stack with the piece drawn in |
| Streams.PauseStep | src/game/streams.tsx:124-145 | Pause flips the pause flag unless the game is over, requests the level's interval on resume and 0 on pause, and redraws a running game |
| Streams.RestartStep | src/game/streams.tsx:132-137 | Restart gives a new running game that keeps only the colour flag, drawn, with a level-1 interval |
| Streams.ColorStep | src/game/streams.tsx:139-145 | Color flips only the colour flag and redraws a running game |
| Streams.MoveStep | src/game/streams.tsx:143-205 | a paused game ignores moves; otherwise Left and Right give `Shifted`, Rotate gives `Rotated`, and Fall and Down move one row down or lock, each redrawn unless the lock ends the game |
| Streams.Step | src/game/streams.tsx:121-206 | the reducer's effect and timer requests for each event |
| Streams.CorrectedStep | src/game/streams.tsx:121-206 | the reducer with `ShiftedCorrected` for a running game's Left and Right, `Step` otherwise |
| Streams.ShiftBack | src/game/streams.tsx:179-193 | from a place that collides with nothing, a sideways move that stands is undone by the opposite move |
| Streams.StepKeepsLevel | src/game/streams.tsx:121-206 | every step keeps level = lines / 10 + 1, and only a restart lowers the lines or the level |
| Streams.MoveKeepsLevel | src/game/streams.tsx:149-203 | moves and gravity keep the level rule and lower neither the lines nor the level |
| Streams.LockKeepsLevel | src/game/streams.tsx:154-175 | a lock keeps the level rule and lowers neither the lines nor the level |
| Streams.GameOverSticky | src/game/streams.tsx:124-145 | an ended game stays over, paused and with the same stack until a restart, and requests no timer change |
| Streams.NewGameSound | src/game/streams.tsx:46-65 | a new game, paused or restarted and drawn, is sound |
| Streams.FallKeepsClear | src/game/streams.tsx:149-154 | a piece that does not land falls onto free cells |
| Streams.ShiftKeepsClear | src/game/streams.tsx:179-193 | a sideways move that the corrected rule lets stand puts the piece on free cells |
| Streams.ShiftedClear | src/game/streams.tsx:179-193 | every corrected sideways move leaves a clear piece clear |
| Streams.RotatedClear | src/game/streams.tsx:195-200 | every rotation leaves a clear piece clear |
| Streams.LockKeepsSound | src/game/streams.tsx:154-175 | after a lock, either the spawned piece is clear of the new stack or the game is over and paused |
| Streams.MoveKeepsSound | src/game/streams.tsx:149-203 | moves and gravity of `CorrectedStep` keep the state sound |
| Streams.MoveOtherKeepsSound | src/game/streams.tsx:149-177 | rotation, a fall and a lock keep a running state sound |
| Streams.StepKeepsSound | src/game/streams.tsx:121-206 | every step of `CorrectedStep` keeps the state sound: a running game's piece never covers a brick, and an ended game stays paused |
| Streams.ShiftOntoSpawnOverlaps | src/game/streams.tsx:179-185 | under `Step`, a sound running state steps on Left into one whose piece covers a brick; `ShiftedCorrected` keeps the piece in place |
| Streams.OnPause | src/game/streams.tsx:124-145 | a Pause press meets the Pause case of `Step` |
| Streams.OnRestart | src/game/streams.tsx:132-145 | a Restart press meets the Restart case of `Step` |
| Streams.OnColor | src/game/streams.tsx:139-145 | a Color press meets the Color case of `Step` |
| Streams.OnMove | src/game/streams.tsx:143-205 | a move or tick meets the move case of `Step` |
| Streams.HandleEvent | src/game/streams.tsx:121-206 | the reducer keeps the state well-formed, shows the piece on the field while running, and meets `Step`, which states each event's effect and timer requests |

The reducer's specification is `Streams.Step`, a predicate with one case
per event (`PauseStep`, `RestartStep`, `ColorStep`, `MoveStep`). `Sound` is
the invariant that the `...KeepsSound` lemmas show `CorrectedStep`
preserves.

## Left out

- The event streams are left out: keyboard and timer subscriptions, the
  `distinctUntilChanged` key-repeat filter, the type guard, the `scan` over
  events and `share`. The reducer is modelled one event at a time.
- The interval subject is not modelled as a stream. The values the reducer
  pushes into it are returned as the `periods` list.
- `Math.random` in `Tetrimino` (src/game/tetrimino.tsx:29) is not modelled.
  The drawn kinds are parameters (`newActiveKind`, `newNextKind`,
  `Tetrimino.constructor(kind)`).
- `preventDefault` in `fromKeyboardEvent` is not modelled, because it only
  affects the browser. The keyboard event is reduced to its key name.
- `clone` (src/game/util.tsx:26-31) is left out, because the reducer never
  calls it. The `App` and grid components and the event timeline are not
  part of this model.
- The gravity interval is a `real`. Floating-point rounding is not modelled.
- Object aliasing from the shallow spread `{...state}` is not modelled: the
  new state shares the active piece object with the old one, and rotation
  mutates that shared object. States here are values.
- `Tetrimino` is a class for the piece's own in-place rotation. Inside the
  game state a piece is a `Piece` value.
- `DetectCollision` takes the stack, shape, position and spawn anchor rather
  than a whole game state. This avoids the import cycle between the board
  helpers and the reducer.
- `y` is a natural number. A piece never moves above row 0.
- The reducer is split into one method per event and one per step. The
  original runs a chain of `if`s, but one event takes exactly one branch,
  so the effect is the same.
- `ApplyShift` tests the shifted position and keeps either the old or the
  moved state. The original moves, tests and then restores `x`; the result
  is the same.
- `ClearLines`' loop body is factored into `ExamineRow`. The original's
  in-place `splice` and `unshift` are modelled as sequence rebuilding.
- `Util.BoundsOf`, `Util.CalculateBounds`: require a shape with a filled
  cell. The original returns infinite bounds for an all-empty matrix, and
  pieces are never empty.
- `Util.DrawShape`: requires the shape's box to lie inside the field, which
  the reducer always ensures. Outside it the original throws below the
  bottom row and writes past the row's end beyond the right wall.
- `Util.ClearLines`: requires a non-empty field whose first row is
  non-empty. The original reads the row width from the first row.
  - On an empty field it throws (src/game/util.tsx:145).
  - When the first row is empty it never terminates. An empty row counts
    as full (`every` holds on an empty row). Each full row is replaced by
    another empty row on top, which the scan finds full again.
  - The loop's termination measure depends on that requirement: with a
    non-empty first row, an inserted empty row is never full.
- `HandleEvent`, `OnMove`, `Advance` and the other reducer members are
  modelled only on `Valid` states. `Valid` is the invariant the reducer
  keeps from `NewGameState`.
  - A state outside it, such as the piece at x = 9 in the Right-wall test
    (src/tests/streams.test.tsx:76-84), is not covered.
  - On such a state the original reverts the move on WallRight, then draws
    cells past the row's end.

## Findings

| source | as written | input that shows it | evidently intended | confidence | as-written member | corrected member |
|---|---|---|---|---|---|---|
| src/game/streams.tsx:179-193 | A Left or Right move is undone only on a `WallLeft`/`WallRight` or `BrickOther` collision. A brick hit at the spawn anchor is reported as `GameOver`, so that move stands and the piece overlaps the stack. | A running game on the 15-by-10 board with one brick at row 1, column 4. The upright I piece is at x = 5, y = 0, which it reaches by spawning, moving right and rotating. Pressing Left moves it to x = 4, over the brick. | Any brick hit blocks a sideways move, as it blocks a rotation; `GameOver` is meant only for the spawn check. | not executed; high | Streams.ShiftOntoSpawnOverlaps | Streams.StepKeepsSound |

The reducer as written (`Step`, `HandleEvent`, `Shifted`) keeps the
original's rule. The corrected rule is `ShiftedCorrected`, used by
`CorrectedStep`, about which `StepKeepsSound` is proved.
