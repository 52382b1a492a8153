/**
 * Board helpers of the game engine: field construction and copying, the
 * gravity interval, bounding boxes, collision classification, drawing a
 * shape onto a field and clearing full rows.
 *
 * A board is a matrix of integer cells, row by row; 0 is an empty cell and
 * any other value is a filled one.
 */
module Util {
  import opened Wrappers

  type Matrix = seq<seq<int>>

  const GridSizeX: nat := 10
  const GridSizeY: nat := 15
  const BaseSpeed: real := 1.0
  const SpeedUp: real := 0.25
  const EmptyCell: int := 0

  predicate IsEmptyCell(v: int) { v == EmptyCell }

  /** Where a freshly spawned piece's bounding box is anchored. */
  const SpawnX: int := 4
  const SpawnY: nat := 0

  datatype CollisionType = NoCollision | WallLeft | WallRight | WallBottom | BrickOther | GameOver

  /** Every row is as wide as the first one. */
  predicate IsRect(m: Matrix) {
    forall i :: 0 <= i < |m| ==> |m[i]| == |m[0]|
  }

  /** A playing field: at least one row, at least one column, rectangular. */
  predicate IsField(m: Matrix) {
    |m| > 0 && |m[0]| > 0 && IsRect(m)
  }

  predicate RowFilled(row: seq<int>) {
    exists j :: 0 <= j < |row| && !IsEmptyCell(row[j])
  }

  predicate HasFilledCell(m: Matrix) {
    exists i :: 0 <= i < |m| && RowFilled(m[i])
  }

  /** A piece shape: rectangular, with at least one filled cell. */
  predicate IsShape(m: Matrix) {
    IsRect(m) && HasFilledCell(m)
  }

  // ---------------------------------------------------------------------
  // Field construction and copying

  /** `height` rows of `width` cells, every cell equal to `fill`. */
  function CreateField(width: nat, height: nat, fill: int): (r: Matrix)
    ensures |r| == height
    ensures forall i :: 0 <= i < height ==> |r[i]| == width
    ensures forall i, j :: 0 <= i < height && 0 <= j < width ==> r[i][j] == fill
  {
    seq(height, _ => seq(width, _ => fill))
  }

  /** The empty board: 15 rows of 10 empty cells. */
  function ClearField(): (r: Matrix)
    ensures IsField(r) && |r| == GridSizeY && |r[0]| == GridSizeX
    ensures forall i, j :: 0 <= i < |r| && 0 <= j < |r[i]| ==> IsEmptyCell(r[i][j])
  {
    CreateField(GridSizeX, GridSizeY, EmptyCell)
  }

  /** Row-by-row, cell-by-cell copy. */
  method CopyArrayOfArray(input: Matrix) returns (output: Matrix)
    ensures output == input
  {
    output := [];
    for i := 0 to |input|
      invariant output == input[..i]
    {
      var row: seq<int> := [];
      for j := 0 to |input[i]|
        invariant row == input[i][..j]
      {
        row := row + [input[i][j]];
      }
      assert input[i][..|input[i]|] == input[i];
      output := output + [row];
    }
    assert input[..|input|] == input;
  }

  // ---------------------------------------------------------------------
  // Gravity

  /** Milliseconds between two gravity ticks at `level`. */
  function IntervalFromLevel(level: nat): (r: real)
    ensures r > 0.0
  {
    var factor := BaseSpeed + (level as real - 1.0) * SpeedUp;
    1000.0 / factor
  }

  /** The interval is inversely proportional to level + 3: 4000 ms at level 0, 1000 ms at level 1. */
  lemma IntervalFormula(level: nat)
    ensures IntervalFromLevel(level) * (level as real + 3.0) == 4000.0
  {
  }

  /** Level 1 falls once a second; level 5 twice as fast. */
  lemma IntervalExamples()
    ensures IntervalFromLevel(1) == 1000.0
    ensures IntervalFromLevel(5) == 500.0
  {
  }

  /** The gravity interval strictly shrinks as the level grows. */
  lemma IntervalDecreasing(a: nat, b: nat)
    requires a < b
    ensures IntervalFromLevel(b) < IntervalFromLevel(a)
  {
    var ia, ib := IntervalFromLevel(a), IntervalFromLevel(b);
    var da, db := a as real + 3.0, b as real + 3.0;
    IntervalFormula(a);
    IntervalFormula(b);
    assert ia * da == ib * db;
    assert ib * db > ib * da;
  }

  // ---------------------------------------------------------------------
  // Bounding box

  datatype Bounds = Bounds(rowStart: int, rowEnd: int, columnStart: int, columnEnd: int, width: int, height: int)

  /** The cell (i, j) exists and is filled. */
  predicate FilledAt(m: Matrix, i: int, j: int) {
    0 <= i < |m| && 0 <= j < |m[i]| && !IsEmptyCell(m[i][j])
  }

  /** Some row holds a filled cell in column j. */
  ghost predicate ColFilled(m: Matrix, j: int) {
    exists i :: FilledAt(m, i, j)
  }

  /** Indices of the rows that hold a filled cell, in scan order. */
  function FilledRows(m: Matrix): seq<int> {
    if |m| == 0 then [] else FilledRows(m[..|m| - 1]) + (if RowFilled(m[|m| - 1]) then [|m| - 1] else [])
  }

  /** Column indices of the filled cells of one row, in scan order. */
  function FilledColsOfRow(row: seq<int>): seq<int> {
    if |row| == 0 then [] else FilledColsOfRow(row[..|row| - 1]) + (if !IsEmptyCell(row[|row| - 1]) then [|row| - 1] else [])
  }

  /** Column indices of all filled cells, row after row. */
  function FilledCols(m: Matrix): seq<int> {
    if |m| == 0 then [] else FilledCols(m[..|m| - 1]) + FilledColsOfRow(m[|m| - 1])
  }

  /** The row scan collects exactly the rows holding a filled cell. */
  lemma {:induction false} FilledRowsMembers(m: Matrix)
    ensures forall k :: k in FilledRows(m) <==> 0 <= k < |m| && RowFilled(m[k])
  {
    if |m| > 0 {
      var init := m[..|m| - 1];
      FilledRowsMembers(init);
      assert forall k :: 0 <= k < |init| ==> init[k] == m[k];
    }
  }

  /** The scan of one row collects exactly the indices of its filled cells. */
  lemma {:induction false} FilledColsOfRowMembers(row: seq<int>)
    ensures forall j :: j in FilledColsOfRow(row) <==> 0 <= j < |row| && !IsEmptyCell(row[j])
  {
    if |row| > 0 {
      var init := row[..|row| - 1];
      FilledColsOfRowMembers(init);
      assert forall j :: 0 <= j < |init| ==> init[j] == row[j];
    }
  }

  /** The column scan collects exactly the columns holding a filled cell. */
  lemma {:induction false} FilledColsMembers(m: Matrix)
    ensures forall j :: j in FilledCols(m) <==> ColFilled(m, j)
  {
    if |m| > 0 {
      var init := m[..|m| - 1];
      var rest := FilledCols(init);
      var last := FilledColsOfRow(m[|m| - 1]);
      FilledColsMembers(init);
      FilledColsOfRowMembers(m[|m| - 1]);
      forall j | j in rest + last ensures ColFilled(m, j) {
        if j in rest {
          var i :| FilledAt(init, i, j);
          assert FilledAt(m, i, j);
        } else {
          assert FilledAt(m, |m| - 1, j);
        }
      }
      forall j | ColFilled(m, j) ensures j in rest + last {
        var i :| FilledAt(m, i, j);
        if i < |m| - 1 {
          assert FilledAt(init, i, j);
        }
      }
    }
  }

  function Min(s: seq<int>): (r: int)
    requires |s| > 0
    ensures r in s && forall x :: x in s ==> r <= x
  {
    if |s| == 1 then s[0]
    else
      var t := Min(s[1..]);
      assert forall x :: x in s ==> x == s[0] || x in s[1..];
      if s[0] <= t then s[0] else t
  }

  function Max(s: seq<int>): (r: int)
    requires |s| > 0
    ensures r in s && forall x :: x in s ==> x <= r
  {
    if |s| == 1 then s[0]
    else
      var t := Max(s[1..]);
      assert forall x :: x in s ==> x == s[0] || x in s[1..];
      if s[0] >= t then s[0] else t
  }

  lemma FilledIndicesNonEmpty(m: Matrix)
    requires HasFilledCell(m)
    ensures |FilledRows(m)| > 0 && |FilledCols(m)| > 0
  {
    var i :| 0 <= i < |m| && RowFilled(m[i]);
    var j :| 0 <= j < |m[i]| && !IsEmptyCell(m[i][j]);
    FilledRowsMembers(m);
    FilledColsMembers(m);
    assert i in FilledRows(m);
    assert FilledAt(m, i, j);
    assert j in FilledCols(m);
  }

  /**
   * The tightest box around the filled cells of `m`: the first and last rows
   * holding a filled cell, the first and last columns holding one, and the
   * box's width and height.
   */
  function BoundsOf(m: Matrix): (b: Bounds)
    requires HasFilledCell(m)
    ensures 0 <= b.rowStart <= b.rowEnd < |m|
    ensures 0 <= b.columnStart <= b.columnEnd
    ensures IsRect(m) ==> b.columnEnd < |m[0]|
    ensures b.width == b.columnEnd - b.columnStart + 1 && b.height == b.rowEnd - b.rowStart + 1
  {
    var rows := FilledRows(m);
    var cols := FilledCols(m);
    FilledIndicesNonEmpty(m);
    FilledRowsMembers(m);
    FilledColsMembers(m);
    var r1, r2, c1, c2 := Min(rows), Max(rows), Min(cols), Max(cols);
    assert forall i, j :: FilledAt(m, i, j) ==> i in rows && j in cols;
    Bounds(r1, r2, c1, c2, c2 - c1 + 1, r2 - r1 + 1)
  }

  /**
   * The box is tight: its first and last rows and columns each hold a filled
   * cell, and every filled cell lies inside it.
   */
  lemma BoundsTight(m: Matrix)
    requires HasFilledCell(m)
    ensures var b := BoundsOf(m);
            && RowFilled(m[b.rowStart]) && RowFilled(m[b.rowEnd])
            && (forall i :: 0 <= i < |m| && RowFilled(m[i]) ==> b.rowStart <= i <= b.rowEnd)
            && ColFilled(m, b.columnStart) && ColFilled(m, b.columnEnd)
            && (forall i, j :: FilledAt(m, i, j) ==> b.rowStart <= i <= b.rowEnd && b.columnStart <= j <= b.columnEnd)
  {
    var rows := FilledRows(m);
    var cols := FilledCols(m);
    FilledIndicesNonEmpty(m);
    FilledRowsMembers(m);
    FilledColsMembers(m);
    assert forall i, j :: FilledAt(m, i, j) ==> i in rows && j in cols;
  }

  /** The box of a bar filling the middle column of a 3-by-3 matrix: one column wide, three rows high. */
  lemma UprightBarBounds(m: Matrix)
    requires m == [[0, 2, 0], [0, 2, 0], [0, 2, 0]]
    ensures IsShape(m) && BoundsOf(m) == Bounds(0, 2, 1, 1, 1, 3)
  {
    assert IsRect(m) && FilledAt(m, 0, 1) && FilledAt(m, 2, 1);
    assert RowFilled(m[0]) by { assert !IsEmptyCell(m[0][1]); }
    BoundsTight(m);
    forall i, j | FilledAt(m, i, j) ensures j == 1 {
      assert m[i][j] != 0;
    }
  }

  /** A filled-cell box of a w-by-h matrix is at most w wide and h high. */
  lemma BoundsWithin(m: Matrix, w: nat, h: nat)
    requires IsShape(m) && |m| == h && |m[0]| == w
    ensures BoundsOf(m).width <= w && BoundsOf(m).height <= h
  {
  }

  lemma FilledRowsStep(m: Matrix, i: nat)
    requires i < |m|
    ensures FilledRows(m[..i + 1]) == FilledRows(m[..i]) + (if RowFilled(m[i]) then [i] else [])
  {
    assert m[..i + 1][..i] == m[..i];
  }

  lemma FilledColsStep(m: Matrix, i: nat)
    requires i < |m|
    ensures FilledCols(m[..i + 1]) == FilledCols(m[..i]) + FilledColsOfRow(m[i])
  {
    assert m[..i + 1][..i] == m[..i];
  }

  lemma FilledColsOfRowStep(row: seq<int>, j: nat)
    requires j < |row|
    ensures FilledColsOfRow(row[..j + 1]) == FilledColsOfRow(row[..j]) + (if !IsEmptyCell(row[j]) then [j] else [])
  {
    assert row[..j + 1][..j] == row[..j];
  }

  /** Collects filled-row and filled-column indices as the source's scan does, then takes their extremes. */
  method CalculateBounds(m: Matrix) returns (b: Bounds)
    requires HasFilledCell(m)
    ensures b == BoundsOf(m)
  {
    var rowIndices: seq<int> := [];
    var colIndices: seq<int> := [];
    for i := 0 to |m|
      invariant rowIndices == FilledRows(m[..i])
      invariant colIndices == FilledCols(m[..i])
    {
      FilledRowsStep(m, i);
      if RowFilled(m[i]) {
        rowIndices := rowIndices + [i];
      }
      var row := m[i];
      for j := 0 to |row|
        invariant colIndices == FilledCols(m[..i]) + FilledColsOfRow(row[..j])
      {
        FilledColsOfRowStep(row, j);
        if !IsEmptyCell(row[j]) {
          colIndices := colIndices + [j];
        }
      }
      assert row[..|row|] == row;
      FilledColsStep(m, i);
    }
    assert m[..|m|] == m;
    FilledIndicesNonEmpty(m);
    var r1, r2 := Min(rowIndices), Max(rowIndices);
    var c1, c2 := Min(colIndices), Max(colIndices);
    b := Bounds(r1, r2, c1, c2, c2 - c1 + 1, r2 - r1 + 1);
  }

  // ---------------------------------------------------------------------
  // Collision detection

  /** The piece's bounding box, anchored at (x, y), lies inside the field. */
  predicate InWalls(stack: Matrix, shape: Matrix, x: int, y: int)
    requires IsField(stack) && IsShape(shape)
  {
    var b := BoundsOf(shape);
    0 <= x && x + b.width <= |stack[0]| && y + b.height <= |stack|
  }

  /**
   * Field cell (row, col) lies in the shape's bounding box anchored at (x, y),
   * the shape cell over it is filled, and so is the stack cell.
   */
  predicate Hit(stack: Matrix, shape: Matrix, x: int, y: int, row: int, col: int)
    requires IsShape(shape)
  {
    var b := BoundsOf(shape);
    && y <= row < y + b.height && x <= col < x + b.width
    && 0 <= row < |stack| && 0 <= col < |stack[row]|
    && !IsEmptyCell(stack[row][col])
    && !IsEmptyCell(shape[b.rowStart + (row - y)][b.columnStart + (col - x)])
  }

  ghost predicate Overlaps(stack: Matrix, shape: Matrix, x: int, y: int)
    requires IsShape(shape)
  {
    exists row, col :: Hit(stack, shape, x, y, row, col)
  }

  /**
   * How the piece with `shape` at (x, y) sits on `stack`: walls first (left,
   * right, bottom), then an overlap with the stack, which at the spawn anchor
   * means the game is over.
   */
  ghost function Classify(stack: Matrix, shape: Matrix, x: int, y: nat, spawnX: int, spawnY: int): (c: CollisionType)
    requires IsField(stack) && IsShape(shape)
    ensures (c == WallLeft || c == WallRight || c == WallBottom) <==> !InWalls(stack, shape, x, y)
    ensures c == GameOver ==> x == spawnX && y == spawnY
  {
    var b := BoundsOf(shape);
    if x < 0 then WallLeft
    else if x + b.width > |stack[0]| then WallRight
    else if y + b.height > |stack| then WallBottom
    else if Overlaps(stack, shape, x, y) then
      (if y == spawnY && x == spawnX then GameOver else BrickOther)
    else NoCollision
  }

  method DetectCollision(stack: Matrix, shape: Matrix, x: int, y: nat, spawnX: int, spawnY: int)
    returns (c: CollisionType)
    requires IsField(stack) && IsShape(shape)
    ensures c == Classify(stack, shape, x, y, spawnX, spawnY)
  {
    var fieldHeight := |stack|;
    var fieldWidth := |stack[0]|;
    var b := CalculateBounds(shape);

    if x < 0 {
      return WallLeft;
    }
    if x + b.width > fieldWidth {
      return WallRight;
    }
    if y + b.height > fieldHeight {
      return WallBottom;
    }

    var row, rs := y, b.rowStart;
    while row < y + b.height
      invariant y <= row <= y + b.height && rs == b.rowStart + (row - y)
      invariant forall r, col :: r < row ==> !Hit(stack, shape, x, y, r, col)
    {
      var col, cs := x, b.columnStart;
      while col < x + b.width
        invariant x <= col <= x + b.width && cs == b.columnStart + (col - x)
        invariant forall co :: co < col ==> !Hit(stack, shape, x, y, row, co)
      {
        if !IsEmptyCell(stack[row][col]) && !IsEmptyCell(shape[rs][cs]) {
          assert Hit(stack, shape, x, y, row, col);
          if y == spawnY && x == spawnX {
            return GameOver;
          }
          return BrickOther;
        }
        col, cs := col + 1, cs + 1;
      }
      row, rs := row + 1, rs + 1;
    }
    return NoCollision;
  }

  /** A piece inside the walls, moved one row down, can hit the bottom wall but neither side wall. */
  lemma ClassifyBelow(stack: Matrix, shape: Matrix, x: int, y: nat, spawnX: int, spawnY: int)
    requires IsField(stack) && IsShape(shape) && InWalls(stack, shape, x, y)
    ensures var c := Classify(stack, shape, x, y + 1, spawnX, spawnY);
            c != WallLeft && c != WallRight
  {
  }

  /** A piece inside the walls, moved one column sideways, can hit only the wall on that side. */
  lemma ClassifySideways(stack: Matrix, shape: Matrix, x: int, y: nat, dx: int, spawnX: int, spawnY: int)
    requires IsField(stack) && IsShape(shape) && InWalls(stack, shape, x, y)
    requires dx == -1 || dx == 1
    ensures var c := Classify(stack, shape, x + dx, y, spawnX, spawnY);
            c != WallBottom && c != (if dx < 0 then WallRight else WallLeft)
  {
  }

  // ---------------------------------------------------------------------
  // Drawing

  /** The value painted for a filled shape cell: `color` when given and non-zero, else the shape's own value. */
  function Paint(color: Option<int>, v: int): int {
    if color.Some? && color.value != 0 then color.value else v
  }

  /** Field cell (i, j) lies under a filled cell of the shape's bounding box anchored at (x, y). */
  predicate Covered(shape: Matrix, x: int, y: int, i: int, j: int)
    requires IsShape(shape)
  {
    var b := BoundsOf(shape);
    y <= i < y + b.height && x <= j < x + b.width
    && !IsEmptyCell(shape[b.rowStart + (i - y)][b.columnStart + (j - x)])
  }

  /** The shape cell drawn at field cell (i, j). */
  function ShapeCellAt(shape: Matrix, x: int, y: int, i: int, j: int): int
    requires IsShape(shape) && Covered(shape, x, y, i, j)
  {
    var b := BoundsOf(shape);
    shape[b.rowStart + (i - y)][b.columnStart + (j - x)]
  }

  /** Cell (i, j) of `field` after the shape is drawn at (x, y). */
  function DrawnCell(field: Matrix, shape: Matrix, x: int, y: int, color: Option<int>, i: int, j: int): int
    requires IsShape(shape) && 0 <= i < |field| && 0 <= j < |field[i]|
  {
    if Covered(shape, x, y, i, j) then Paint(color, ShapeCellAt(shape, x, y, i, j)) else field[i][j]
  }

  /** `field` with the filled cells of `shape` painted over it at (x, y). */
  function Drawn(field: Matrix, shape: Matrix, x: int, y: int, color: Option<int>): (r: Matrix)
    requires IsShape(shape)
    ensures |r| == |field|
    ensures forall i :: 0 <= i < |field| ==> |r[i]| == |field[i]|
  {
    seq(|field|, i requires 0 <= i < |field| =>
      seq(|field[i]|, j requires 0 <= j < |field[i]| => DrawnCell(field, shape, x, y, color, i, j)))
  }

  /**
   * Drawing paints exactly the cells under the shape's filled cells, with the
   * shape's value or `color`, and leaves every other cell as it was.
   */
  lemma DrawnCells(field: Matrix, shape: Matrix, x: int, y: int, color: Option<int>)
    requires IsShape(shape)
    ensures var r := Drawn(field, shape, x, y, color);
            forall i, j :: 0 <= i < |field| && 0 <= j < |field[i]| ==>
              r[i][j] == (if Covered(shape, x, y, i, j) then Paint(color, ShapeCellAt(shape, x, y, i, j)) else field[i][j])
  {
  }

  /** Filled shape cell (a, c), drawn with its box at (x, y), lands inside the field and takes its painted value. */
  lemma DrawnCellOfShape(field: Matrix, shape: Matrix, x: int, y: nat, color: Option<int>, a: int, c: int)
    requires IsField(field) && IsShape(shape) && InWalls(field, shape, x, y) && FilledAt(shape, a, c)
    ensures var b := BoundsOf(shape);
            && 0 <= y + a - b.rowStart < |field|
            && 0 <= x + c - b.columnStart < |field[y + a - b.rowStart]|
            && Drawn(field, shape, x, y, color)[y + a - b.rowStart][x + c - b.columnStart] == Paint(color, shape[a][c])
  {
    var b := BoundsOf(shape);
    BoundsTight(shape);
    assert b.rowStart <= a <= b.rowEnd && b.columnStart <= c <= b.columnEnd;
    var i, j := y + a - b.rowStart, x + c - b.columnStart;
    assert |field[i]| == |field[0]|;
    assert Covered(shape, x, y, i, j);
  }

  /**
   * No filled cell of the piece is lost: when the box fits the field, each
   * filled shape cell (a, c) lands on field cell
   * (y + a - rowStart, x + c - columnStart), which takes its painted value.
   */
  lemma DrawnKeepsFilled(field: Matrix, shape: Matrix, x: int, y: nat, color: Option<int>)
    requires IsField(field) && IsShape(shape) && InWalls(field, shape, x, y)
    ensures var b := BoundsOf(shape);
            var r := Drawn(field, shape, x, y, color);
            forall a, c :: FilledAt(shape, a, c) ==>
              && 0 <= y + a - b.rowStart < |field|
              && 0 <= x + c - b.columnStart < |field[y + a - b.rowStart]|
              && r[y + a - b.rowStart][x + c - b.columnStart] == Paint(color, shape[a][c])
  {
    forall a, c | FilledAt(shape, a, c)
      ensures var b := BoundsOf(shape);
              && 0 <= y + a - b.rowStart < |field|
              && 0 <= x + c - b.columnStart < |field[y + a - b.rowStart]|
              && Drawn(field, shape, x, y, color)[y + a - b.rowStart][x + c - b.columnStart] == Paint(color, shape[a][c])
    {
      DrawnCellOfShape(field, shape, x, y, color, a, c);
    }
  }

  /**
   * Overlays the shape on a copy of the field. Cells under a filled shape
   * cell take the shape's value (or `color`); every other cell keeps the
   * field's value; the dimensions do not change.
   */
  method DrawShape(field: Matrix, shape: Matrix, x: int, y: nat, color: Option<int>) returns (result: Matrix)
    requires IsField(field) && IsShape(shape) && InWalls(field, shape, x, y)
    ensures result == Drawn(field, shape, x, y, color)
  {
    var b := CalculateBounds(shape);
    result := CopyArrayOfArray(field);

    var row, rs := y, b.rowStart;
    while row < y + b.height
      invariant y <= row <= y + b.height && rs == b.rowStart + (row - y)
      invariant |result| == |field|
      invariant forall i :: 0 <= i < |field| ==> |result[i]| == |field[i]|
      invariant forall i, j :: 0 <= i < |field| && 0 <= j < |field[i]| ==>
                  result[i][j] == if i < row then DrawnCell(field, shape, x, y, color, i, j) else field[i][j]
    {
      var col, cs := x, b.columnStart;
      while col < x + b.width
        invariant x <= col <= x + b.width && cs == b.columnStart + (col - x)
        invariant |result| == |field|
        invariant forall i :: 0 <= i < |field| ==> |result[i]| == |field[i]|
        invariant forall i, j :: 0 <= i < |field| && 0 <= j < |field[i]| ==>
                    result[i][j] == if i < row || (i == row && j < col) then DrawnCell(field, shape, x, y, color, i, j) else field[i][j]
      {
        if shape[rs][cs] != 0 {
          var v := if color.Some? && color.value != 0 then color.value else shape[rs][cs];
          result := result[row := result[row][col := v]];
        }
        col, cs := col + 1, cs + 1;
      }
      row, rs := row + 1, rs + 1;
    }
    var d := Drawn(field, shape, x, y, color);
    DrawnCells(field, shape, x, y, color);
    assert forall i :: 0 <= i < |field| ==> result[i] == d[i];
  }

  // ---------------------------------------------------------------------
  // Line clearing

  /** Every cell of the row is positive. */
  predicate Full(row: seq<int>) {
    forall j :: 0 <= j < |row| ==> row[j] > 0
  }

  /** How many rows are full. */
  function FullCount(rows: Matrix): (n: nat)
    ensures n <= |rows|
  {
    if rows == [] then 0
    else (if Full(rows[0]) then 1 else 0) + FullCount(rows[1..])
  }

  /** The rows that are not full, in their original order. */
  function Kept(rows: Matrix): (r: Matrix)
    ensures |r| + FullCount(rows) == |rows|
  {
    if rows == [] then [] else (if Full(rows[0]) then [] else [rows[0]]) + Kept(rows[1..])
  }

  /** Every kept row is a row of the input, and none of them is full. */
  lemma {:induction false} KeptRows(rows: Matrix)
    ensures forall i :: 0 <= i < |Kept(rows)| ==> Kept(rows)[i] in rows && !Full(Kept(rows)[i])
  {
    if rows != [] {
      KeptRows(rows[1..]);
      assert forall row :: row in rows[1..] ==> row in rows;
    }
  }

  /** A row of `width` empty cells. */
  function EmptyRow(width: nat): (row: seq<int>)
    ensures |row| == width
  {
    seq(width, _ => 0)
  }

  /** `n` rows of `width` zeros. */
  function EmptyRows(n: nat, width: nat): (r: Matrix)
    ensures |r| == n
    ensures forall i :: 0 <= i < n ==> r[i] == EmptyRow(width)
  {
    if n == 0 then [] else [EmptyRow(width)] + EmptyRows(n - 1, width)
  }

  /** The field once its full rows are gone and empty rows pad it at the top. */
  function Cleared(field: Matrix): Matrix
    requires |field| > 0
  {
    EmptyRows(FullCount(field), |field[0]|) + Kept(field)
  }

  /** Unfolds Kept and FullCount at row k - 1 of a suffix. */
  lemma SuffixStep(field: Matrix, k: nat)
    requires 0 < k <= |field|
    ensures FullCount(field[k - 1..]) == (if Full(field[k - 1]) then 1 else 0) + FullCount(field[k..])
    ensures Kept(field[k - 1..]) == (if Full(field[k - 1]) then [] else [field[k - 1]]) + Kept(field[k..])
  {
    assert field[k - 1..][1..] == field[k..];
  }

  /** The row the scan examines: an unexamined input row, or one of the empty rows on top. */
  lemma ScanRow(field: Matrix, tmp: Matrix, cleared: nat, w: nat, k: nat, r: int)
    requires k <= |field| && 0 <= r && w > 0
    requires tmp == EmptyRows(cleared, w) + field[..k] + Kept(field[k..])
    requires k > 0 ==> r == cleared + k - 1
    requires k == 0 ==> r < cleared
    ensures r < |tmp|
    ensures k > 0 ==> tmp[r] == field[k - 1]
    ensures k == 0 ==> !Full(tmp[r])
  {
    if k == 0 {
      assert tmp[r] == EmptyRows(cleared, w)[r];
      assert tmp[r][0] == 0;
    } else {
      assert tmp[r] == field[..k][k - 1];
    }
  }

  /** A full row at the scan position is dropped and an empty row goes on top. */
  lemma DropFullRow(field: Matrix, tmp: Matrix, cleared: nat, w: nat, k: nat, r: int)
    requires 0 < k <= |field| && r == cleared + k - 1
    requires tmp == EmptyRows(cleared, w) + field[..k] + Kept(field[k..])
    requires cleared == FullCount(field[k..])
    requires Full(field[k - 1])
    ensures 0 <= r < |tmp|
    ensures [EmptyRow(w)] + tmp[..r] + tmp[r + 1..] == EmptyRows(cleared + 1, w) + field[..k - 1] + Kept(field[k - 1..])
    ensures cleared + 1 == FullCount(field[k - 1..])
  {
    var e, p, rest := EmptyRows(cleared, w), field[..k], Kept(field[k..]);
    assert tmp[..r] == e + p[..k - 1];
    assert tmp[r + 1..] == rest;
    assert p[..k - 1] == field[..k - 1];
    SuffixStep(field, k);
  }

  /** A row that is not full stays where it is and the scan moves up. */
  lemma KeepRow(field: Matrix, tmp: Matrix, cleared: nat, w: nat, k: nat)
    requires 0 < k <= |field|
    requires tmp == EmptyRows(cleared, w) + field[..k] + Kept(field[k..])
    requires cleared == FullCount(field[k..])
    requires !Full(field[k - 1])
    ensures tmp == EmptyRows(cleared, w) + field[..k - 1] + Kept(field[k - 1..])
    ensures cleared == FullCount(field[k - 1..])
  {
    SuffixStep(field, k);
    assert field[..k] == field[..k - 1] + [field[k - 1]];
  }

  /**
   * The scan's invariant: rows field[..k] are unexamined; below them the
   * examined rows with the full ones gone; the `cleared` empty rows inserted
   * so far on top. Index r points at the bottom unexamined row, or into the
   * inserted empty rows once every input row has been examined.
   */
  ghost predicate ScanInv(field: Matrix, tmp: Matrix, cleared: nat, w: nat, k: int, r: int) {
    && 0 <= k <= |field| && -1 <= r
    && cleared == FullCount(field[k..])
    && tmp == EmptyRows(cleared, w) + field[..k] + Kept(field[k..])
    && (k > 0 ==> r == cleared + k - 1)
    && (k == 0 ==> r < cleared)
  }

  /** One step of the scan keeps its invariant, whether the row at r is full or not. */
  lemma ScanStep(field: Matrix, tmp: Matrix, cleared: nat, w: nat, k: int, r: int)
    requires ScanInv(field, tmp, cleared, w, k, r) && 0 <= r && w > 0
    ensures r < |tmp|
    ensures Full(tmp[r]) ==> k > 0 && ScanInv(field, [EmptyRow(w)] + tmp[..r] + tmp[r + 1..], cleared + 1, w, k - 1, r)
    ensures !Full(tmp[r]) ==> ScanInv(field, tmp, cleared, w, if k > 0 then k - 1 else k, r - 1)
  {
    ScanRow(field, tmp, cleared, w, k, r);
    if Full(tmp[r]) {
      DropFullRow(field, tmp, cleared, w, k, r);
    } else if k > 0 {
      KeepRow(field, tmp, cleared, w, k);
    }
  }

  /**
   * One pass of the scan's loop body: a full row at r is removed and an empty
   * row goes on top, and r stays to examine the row that moved down;
   * otherwise r moves one row up.
   */
  method ExamineRow(ghost field: Matrix, tmp: Matrix, cleared: nat, sizeY: nat, ghost k: int, r: int)
    returns (nextTmp: Matrix, nextCleared: nat, ghost nextK: int, nextR: int)
    requires ScanInv(field, tmp, cleared, sizeY, k, r) && 0 <= r && sizeY > 0
    ensures ScanInv(field, nextTmp, nextCleared, sizeY, nextK, nextR)
    ensures nextR + nextK < r + k
  {
    ScanStep(field, tmp, cleared, sizeY, k, r);
    if Full(tmp[r]) {
      nextTmp, nextCleared, nextK, nextR := [EmptyRow(sizeY)] + tmp[..r] + tmp[r + 1..], cleared + 1, k - 1, r;
    } else {
      nextTmp, nextCleared, nextK, nextR := tmp, cleared, if k > 0 then k - 1 else k, r - 1;
    }
  }

  /**
   * Scans from the bottom row up; a full row is removed, an empty row is
   * inserted at the top, and the same index is examined again.
   */
  method ClearLines(field: Matrix) returns (result: Matrix, amount: nat)
    requires |field| > 0 && |field[0]| > 0
    ensures amount == FullCount(field)
    ensures result == EmptyRows(amount, |field[0]|) + Kept(field)
  {
    var tmp := CopyArrayOfArray(field);
    var sizeY := |tmp[0]|;
    var cleared := 0;

    var r := |tmp| - 1;
    ghost var k := |field|;   // rows field[..k] are still unexamined
    assert field[k..] == [] && field[..k] == field;
    while r >= 0
      invariant ScanInv(field, tmp, cleared, sizeY, k, r)
      decreases r + k + 1
    {
      tmp, cleared, k, r := ExamineRow(field, tmp, cleared, sizeY, k, r);
    }
    assert field[..0] == [] && field[0..] == field;
    assert tmp == EmptyRows(cleared, |field[0]|) + Kept(field) by {
      assert EmptyRows(cleared, sizeY) + field[..0] == EmptyRows(cleared, sizeY);
    }
    result, amount := tmp, cleared;
  }

  lemma {:induction false} FullCountAppend(a: Matrix, b: Matrix)
    ensures FullCount(a + b) == FullCount(a) + FullCount(b)
  {
    if a == [] {
      assert a + b == b;
    } else {
      assert (a + b)[0] == a[0] && (a + b)[1..] == a[1..] + b;
      FullCountAppend(a[1..], b);
    }
  }

  lemma {:induction false} KeptAppend(a: Matrix, b: Matrix)
    ensures Kept(a + b) == Kept(a) + Kept(b)
  {
    if a == [] {
      assert a + b == b;
    } else {
      assert (a + b)[0] == a[0] && (a + b)[1..] == a[1..] + b;
      KeptAppend(a[1..], b);
    }
  }

  /** With no full row, nothing is dropped. */
  lemma {:induction false} KeptAllWhenNoneFull(rows: Matrix)
    requires FullCount(rows) == 0
    ensures Kept(rows) == rows
  {
    if rows != [] {
      KeptAllWhenNoneFull(rows[1..]);
    }
  }

  lemma {:induction false} EmptyRowsNotFull(n: nat, w: nat)
    requires w > 0
    ensures FullCount(EmptyRows(n, w)) == 0 && Kept(EmptyRows(n, w)) == EmptyRows(n, w)
  {
    if n > 0 {
      assert EmptyRows(n, w)[0][0] == 0;
      assert EmptyRows(n, w)[1..] == EmptyRows(n - 1, w);
      EmptyRowsNotFull(n - 1, w);
    }
  }

  lemma {:induction false} KeptNotFull(rows: Matrix)
    ensures FullCount(Kept(rows)) == 0
  {
    if rows != [] {
      KeptNotFull(rows[1..]);
      FullCountAppend(if Full(rows[0]) then [] else [rows[0]], Kept(rows[1..]));
    }
  }

  /** Clearing keeps the row count and the row width of a rectangular field. */
  lemma ClearedShape(field: Matrix)
    requires IsField(field)
    ensures IsField(Cleared(field)) && |Cleared(field)| == |field| && |Cleared(field)[0]| == |field[0]|
  {
    var c := Cleared(field);
    var e, kept := EmptyRows(FullCount(field), |field[0]|), Kept(field);
    KeptRows(field);
    assert c == e + kept;
    forall i | 0 <= i < |c| ensures |c[i]| == |field[0]| {
      if i < |e| {
        assert c[i] == e[i];
      } else {
        assert c[i] == kept[i - |e|];
        assert c[i] in field;
      }
    }
  }

  /** With no full row the field comes back unchanged. */
  lemma ClearedNoFullRow(field: Matrix)
    requires |field| > 0 && FullCount(field) == 0
    ensures Cleared(field) == field
  {
    KeptAllWhenNoneFull(field);
  }

  /** A cleared field holds no full row, so clearing it again changes nothing. */
  lemma ClearedIdempotent(field: Matrix)
    requires IsField(field)
    ensures FullCount(Cleared(field)) == 0
    ensures Cleared(Cleared(field)) == Cleared(field)
  {
    var e, kept := EmptyRows(FullCount(field), |field[0]|), Kept(field);
    EmptyRowsNotFull(FullCount(field), |field[0]|);
    KeptNotFull(field);
    FullCountAppend(e, kept);
    ClearedShape(field);
    ClearedNoFullRow(Cleared(field));
  }

  /** The simple case of the line-clearing tests: one full bottom row. */
  lemma ClearedExample()
    ensures var field := [[0, 0, 0, 0, 0, 0, 0], [0, 1, 0, 0, 0, 0, 0], [1, 1, 1, 1, 1, 1, 1]];
      FullCount(field) == 1 &&
      Cleared(field) == [[0, 0, 0, 0, 0, 0, 0], [0, 0, 0, 0, 0, 0, 0], [0, 1, 0, 0, 0, 0, 0]]
  {
    var field := [[0, 0, 0, 0, 0, 0, 0], [0, 1, 0, 0, 0, 0, 0], [1, 1, 1, 1, 1, 1, 1]];
    assert !Full(field[0]) by { assert field[0][0] == 0; }
    assert !Full(field[1]) by { assert field[1][0] == 0; }
    assert Full(field[2]);
    assert field[1..][1..] == [field[2]];
    assert Kept([field[2]]) == [];
    assert Kept(field[1..]) == [field[1]];
    assert Kept(field) == [field[0], field[1]];
    assert FullCount(field) == 1;
    var zero := seq(7, _ => 0);
    assert zero == [0, 0, 0, 0, 0, 0, 0];
    assert EmptyRows(1, 7) == [zero];
  }
}
