/**
 * The piece catalog and piece rotation. A piece is one of seven kinds with
 * one, two or four rotation states, each a 3-by-3 matrix of 0/1 cells.
 */
module Tetriminos {
  import opened Util

  /** Rotation states per kind, in the order O, I, T, L, J, Z, S. */
  const Catalog: seq<seq<Matrix>> := [
    // O
    [
      [[1, 1, 0],
       [1, 1, 0],
       [0, 0, 0]]
    ],
    // I (three cells long in this game)
    [
      [[0, 0, 0],
       [1, 1, 1],
       [0, 0, 0]],
      [[0, 1, 0],
       [0, 1, 0],
       [0, 1, 0]]
    ],
    // T
    [
      [[0, 1, 0],
       [1, 1, 1],
       [0, 0, 0]],
      [[0, 1, 0],
       [0, 1, 1],
       [0, 1, 0]],
      [[0, 0, 0],
       [1, 1, 1],
       [0, 1, 0]],
      [[0, 1, 0],
       [1, 1, 0],
       [0, 1, 0]]
    ],
    // L
    [
      [[1, 0, 0],
       [1, 1, 1],
       [0, 0, 0]],
      [[0, 1, 1],
       [0, 1, 0],
       [0, 1, 0]],
      [[0, 0, 0],
       [1, 1, 1],
       [0, 0, 1]],
      [[0, 1, 0],
       [0, 1, 0],
       [1, 1, 0]]
    ],
    // J
    [
      [[0, 0, 1],
       [1, 1, 1],
       [0, 0, 0]],
      [[0, 1, 0],
       [0, 1, 0],
       [0, 1, 1]],
      [[0, 0, 0],
       [1, 1, 1],
       [1, 0, 0]],
      [[1, 1, 0],
       [0, 1, 0],
       [0, 1, 0]]
    ],
    // Z
    [
      [[1, 1, 0],
       [0, 1, 1],
       [0, 0, 0]],
      [[0, 0, 1],
       [0, 1, 1],
       [0, 1, 0]],
      [[0, 0, 0],
       [1, 1, 0],
       [0, 1, 1]],
      [[0, 1, 0],
       [1, 1, 0],
       [1, 0, 0]]
    ],
    // S
    [
      [[0, 1, 1],
       [1, 1, 0],
       [0, 0, 0]],
      [[0, 1, 0],
       [0, 1, 1],
       [0, 0, 1]],
      [[0, 0, 0],
       [0, 1, 1],
       [1, 1, 0]],
      [[1, 0, 0],
       [1, 1, 0],
       [0, 1, 0]]
    ]
  ]

  const KindCount: nat := 7

  /** The number of rotation states of each kind: one for O, two for I, four for the others. */
  function RotationsOf(kind: nat): nat {
    if kind == 0 then 1 else if kind == 1 then 2 else 4
  }

  /** A 3-by-3 matrix. */
  predicate Is3x3(m: Matrix) {
    |m| == 3 && forall i :: 0 <= i < 3 ==> |m[i]| == 3
  }

  /**
   * Seven kinds; O has one rotation state, I two, the others four; every
   * state is 3-by-3 and has its centre cell filled.
   */
  lemma CatalogWellFormed(kind: nat, rotation: nat)
    requires kind < KindCount && rotation < RotationsOf(kind)
    ensures |Catalog| == KindCount
    ensures |Catalog[kind]| == RotationsOf(kind)
    ensures Is3x3(Catalog[kind][rotation])
    ensures Catalog[kind][rotation][1][1] > 0
  {
  }

  /** Next clockwise rotation index, wrapping around after the last one. */
  function RotateCwIndex(index: nat, count: nat): (r: nat)
    requires index < count
    ensures r < count
    ensures r == if index == count - 1 then 0 else index + 1
  {
    (index + 1) % count
  }

  /** Previous rotation index, wrapping around before the first one. */
  function RotateCcwIndex(index: nat, count: nat): (r: nat)
    requires index < count
    ensures r < count
  {
    if index - 1 >= 0 then index - 1 else count - 1
  }

  /** A clockwise and a counter-clockwise rotation undo each other. */
  lemma RotateRoundTrip(index: nat, count: nat)
    requires index < count
    ensures RotateCcwIndex(RotateCwIndex(index, count), count) == index
    ensures RotateCwIndex(RotateCcwIndex(index, count), count) == index
  {
  }

  /** A piece as a value: its kind (catalog index) and its rotation index. */
  datatype Piece = Piece(kind: nat, rotation: nat) {

    predicate Valid() {
      kind < KindCount && rotation < RotationsOf(kind)
    }

    function RotationCount(): nat
      requires kind < KindCount
    {
      RotationsOf(kind)
    }

    function Cw(): (p: Piece)
      requires Valid()
      ensures p.Valid() && p.kind == kind
    {
      Piece(kind, RotateCwIndex(rotation, RotationCount()))
    }

    function Ccw(): (p: Piece)
      requires Valid()
      ensures p.Valid() && p.kind == kind
    {
      Piece(kind, RotateCcwIndex(rotation, RotationCount()))
    }

    /**
     * The colour-coded shape: the catalog matrix of the current rotation with
     * every filled cell replaced by kind + 1.
     */
    function Shape(): (m: Matrix)
      requires Valid()
      ensures Is3x3(m)
      ensures IsShape(m)
    {
      CatalogWellFormed(kind, rotation);
      var src := Catalog[kind][rotation];
      var m := seq(|src|, i requires 0 <= i < |src| =>
                 seq(|src[i]|, j requires 0 <= j < |src[i]| => if src[i][j] > 0 then kind + 1 else 0));
      assert RowFilled(m[1]) by { assert !IsEmptyCell(m[1][1]); }
      m
    }
  }

  /**
   * A piece's shape is its catalog matrix with every filled cell coloured
   * kind + 1 and every other cell empty.
   */
  lemma ShapeCells(p: Piece)
    requires p.Valid()
    ensures var m := p.Shape();
            forall i, j :: 0 <= i < 3 && 0 <= j < 3 ==>
              && (m[i][j] != 0 <==> Catalog[p.kind][p.rotation][i][j] > 0)
              && (m[i][j] == 0 || m[i][j] == p.kind + 1)
  {
    CatalogWellFormed(p.kind, p.rotation);
  }

  /** Rotating back and forth restores the piece. */
  lemma PieceRoundTrip(p: Piece)
    requires p.Valid()
    ensures p.Cw().Ccw() == p && p.Ccw().Cw() == p
  {
    RotateRoundTrip(p.rotation, p.RotationCount());
  }

  /** Four clockwise turns bring every piece back to its starting rotation. */
  lemma FourTurns(p: Piece)
    requires p.Valid()
    ensures p.Cw().Cw().Cw().Cw() == p
  {
  }

  /** The upright I piece: the middle column filled with its colour, 2. */
  lemma UprightI()
    ensures Piece(1, 1).Valid() && Piece(1, 1).Shape() == [[0, 2, 0], [0, 2, 0], [0, 2, 0]]
  {
    var m := Piece(1, 1).Shape();
    ShapeCells(Piece(1, 1));
    assert Catalog[1][1] == [[0, 1, 0], [0, 1, 0], [0, 1, 0]];
    assert m[0] == [0, 2, 0] && m[1] == [0, 2, 0] && m[2] == [0, 2, 0];
  }

  /** The O piece has one rotation state, so rotating it changes nothing. */
  lemma SquareRotationIsIdentity()
    ensures Piece(0, 0).Valid() && Piece(0, 0).Cw() == Piece(0, 0)
    ensures Piece(0, 0).Cw().Shape() == Piece(0, 0).Shape()
  {
  }

  /**
   * A piece whose rotation index the game updates in place. The kind is an
   * argument here; the game draws it at random.
   */
  class Tetrimino {
    var shapeIndex: nat
    var rotationIndex: nat

    ghost predicate Valid()
      reads this
    {
      Piece(shapeIndex, rotationIndex).Valid()
    }

    function Value(): Piece
      reads this
    {
      Piece(shapeIndex, rotationIndex)
    }

    constructor (kind: nat)
      requires kind < KindCount
      ensures Valid() && Value() == Piece(kind, 0)
    {
      CatalogWellFormed(kind, 0);
      shapeIndex := kind;
      rotationIndex := 0;
    }

    method RotateCW()
      requires Valid()
      modifies this
      ensures Valid() && Value() == old(Value()).Cw()
    {
      rotationIndex := (rotationIndex + 1) % |Catalog[shapeIndex]|;
    }

    method RotateCCW()
      requires Valid()
      modifies this
      ensures Valid() && Value() == old(Value()).Ccw()
    {
      rotationIndex := if rotationIndex - 1 >= 0 then rotationIndex - 1 else |Catalog[shapeIndex]| - 1;
    }

    function Shape(): (m: Matrix)
      reads this
      requires Valid()
      ensures Is3x3(m) && IsShape(m)
    {
      Value().Shape()
    }
  }
}
