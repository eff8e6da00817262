/** The fixed board size of the falling-block game. */
module Dimensions {
  /** Number of cells in a row (BOARD_WIDTH). */
  const Width: int := 10
  /** Number of rows on the board (BOARD_HEIGHT). */
  const Height: int := 20
}

/** The seven shape templates, the live piece, clockwise rotation and the spawn column. */
module Shapes {
  import opened Dimensions

  /** A (row, column) position. */
  type Cell = (int, int)

  /** An occupancy matrix: row-major, 0 is an empty cell, anything else an occupied one. */
  type Shape = seq<seq<int>>

  /** Family tags, standing for the CSS class names a locked cell carries (0 is kept for "empty"). */
  const CastleWall: int := 1
  const Tower: int := 2
  const ShieldTag: int := 3
  const Sword: int := 4

  datatype Template = Template(shape: Shape, tag: int)

  /** The live piece: its current shape, its family tag and the board offset of its bounding box. */
  datatype Piece = Piece(shape: Shape, tag: int, x: int, y: int)

  /** The catalogue, in the order of the source's `tetrominoes` array. */
  const Templates: seq<Template> := [
    Template([[1, 1], [1, 1]], CastleWall),
    Template([[1, 1, 1, 1]], Tower),
    Template([[1, 1, 1], [0, 1, 0]], ShieldTag),
    Template([[1, 1, 0], [0, 1, 1]], Sword),
    Template([[0, 1, 1], [1, 1, 0]], Sword),
    Template([[1, 1, 1], [1, 0, 0]], ShieldTag),
    Template([[1, 1, 1], [0, 0, 1]], ShieldTag)
  ]

  /** A non-empty matrix whose rows all have the (non-zero) length of the first row. */
  predicate Rectangular(s: Shape) {
    |s| > 0 && |s[0]| > 0 && forall r :: 0 <= r < |s| ==> |s[r]| == |s[0]|
  }

  /** The occupied cells of a shape, as (row, column) pairs. */
  function Cells(s: Shape): set<Cell> {
    set r, c | 0 <= r < |s| && 0 <= c < |s[r]| && s[r][c] != 0 :: (r, c)
  }

  /** Number of occupied cells of a shape. */
  function Size(s: Shape): nat {
    |Cells(s)|
  }

  /**
   * Clockwise rotation: row i of the result is column i of `s` read from the
   * bottom row upwards, so an r-by-c matrix becomes a c-by-r one.
   */
  function Rotate(s: Shape): (t: Shape)
    requires Rectangular(s)
    ensures Rectangular(t) && |t| == |s[0]| && |t[0]| == |s|
    ensures forall i, j :: 0 <= i < |s[0]| && 0 <= j < |s| ==> t[i][j] == s[|s| - 1 - j][i]
  {
    seq(|s[0]|, i requires 0 <= i < |s[0]| => seq(|s|, j requires 0 <= j < |s| => s[|s| - 1 - j][i]))
  }

  /** Rotation moves the occupied cell (r, c) to (c, rows - 1 - r), a one-to-one map. */
  lemma RotateCells(s: Shape)
    requires Rectangular(s)
    ensures Cells(Rotate(s)) == set rc | rc in Cells(s) :: (rc.1, |s| - 1 - rc.0)
  {
  }

  /** Rotation keeps the number of occupied cells. */
  lemma RotateKeepsSize(s: Shape)
    requires Rectangular(s)
    ensures Size(Rotate(s)) == Size(s)
  {
    RotateCells(s);
    var f := (rc: Cell) => (rc.1, |s| - 1 - rc.0);
    InjectiveImageSize(Cells(s), f);
    assert (set rc | rc in Cells(s) :: f(rc)) == set rc | rc in Cells(s) :: (rc.1, |s| - 1 - rc.0);
  }

  /** Four clockwise quarter turns give back the matrix that was rotated. */
  lemma RotateFourTimes(s: Shape)
    requires Rectangular(s)
    ensures Rotate(Rotate(Rotate(Rotate(s)))) == s
  {
    var t := Rotate(Rotate(Rotate(Rotate(s))));
    assert |t| == |s|;
    forall i | 0 <= i < |s| ensures t[i] == s[i] {
      assert |t[i]| == |s[i]|;
    }
  }

  /** An injective map keeps the size of a set of cells. */
  lemma {:induction false} InjectiveImageSize(a: set<Cell>, f: Cell -> Cell)
    requires forall u, v :: u in a && v in a && f(u) == f(v) ==> u == v
    ensures |set u | u in a :: f(u)| == |a|
  {
    if a != {} {
      var u :| u in a;
      var rest := a - {u};
      InjectiveImageSize(rest, f);
      assert (set v | v in a :: f(v)) == (set v | v in rest :: f(v)) + {f(u)};
      assert f(u) !in (set v | v in rest :: f(v));
    }
  }

  /**
   * Spawn column for a shape `w` cells wide: floor(Width / 2) - ceil(w / 2).
   * The piece is centred, an odd leftover column going to the right-hand side.
   */
  function SpawnX(w: int): (x: int)
    requires 0 <= w <= Width
    ensures 0 <= x && x + w <= Width
    ensures 0 <= (Width - x - w) - x <= 1
  {
    Width / 2 - (w + 1) / 2
  }

  /** The piece created from template `i` (the random choice is the parameter), at row 0. */
  function Spawn(i: nat): (p: Piece)
    requires i < |Templates|
    ensures p.shape == Templates[i].shape && p.tag == Templates[i].tag && p.y == 0
    ensures 0 <= p.x && p.x + |p.shape[0]| <= Width
    ensures p.x == 3 || p.x == 4
  {
    TemplatesWellFormed();
    var t := Templates[i];
    Piece(t.shape, t.tag, SpawnX(|t.shape[0]|), 0)
  }

  /** Every template is a 0/1 rectangle, 1 or 2 rows high and 2 to 4 cells wide, with a non-empty tag. */
  lemma TemplatesWellFormed()
    ensures forall i :: 0 <= i < |Templates| ==>
      Rectangular(Templates[i].shape) && 1 <= |Templates[i].shape| <= 2 &&
      2 <= |Templates[i].shape[0]| <= 4 && Templates[i].tag != 0
    ensures forall i, r, c :: 0 <= i < |Templates| && 0 <= r < |Templates[i].shape| && 0 <= c < |Templates[i].shape[r]| ==>
      Templates[i].shape[r][c] in {0, 1}
  {
  }
}
