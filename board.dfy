/** The 20-by-10 grid, the collision test and the lock step's effect on the grid. */
module Board {
  import opened Dimensions
  import opened Shapes

  /** Row-major cells: 0 is empty, otherwise the tag of the family that locked there. */
  type Grid = seq<seq<int>>

  /** Height rows of Width cells each: the shape the grid keeps for the whole game. */
  predicate ValidBoard(b: Grid) {
    |b| == Height && forall r :: 0 <= r < |b| ==> |b[r]| == Width
  }

  /** A fresh row of Width empty cells. */
  function EmptyRow(): (row: seq<int>)
    ensures |row| == Width && forall c :: 0 <= c < |row| ==> row[c] == 0
  {
    seq(Width, _ => 0)
  }

  /** The grid built at the start of a game. */
  function EmptyBoard(): (b: Grid)
    ensures ValidBoard(b) && Occupied(b) == {}
  {
    seq(Height, _ => EmptyRow())
  }

  /** The occupied cells of a grid: a grid is read like a shape, cell by cell. */
  function Occupied(b: Grid): set<Cell> {
    Cells(b)
  }

  /**
   * Whether the board cell at column `col`, row `row` can take a piece cell:
   * above the floor, between the side walls and empty. There is no ceiling test.
   */
  predicate CellFree(b: Grid, col: int, row: int)
    requires ValidBoard(b) && 0 <= row
  {
    row < Height && 0 <= col < Width && b[row][col] == 0
  }

  /**
   * Shape `s` placed with its top-left corner at (x, y) is legal: every occupied
   * cell of `s` lands on a free cell.
   */
  predicate Fits(b: Grid, x: int, y: int, s: Shape)
    requires ValidBoard(b) && 0 <= y
  {
    forall r, c :: 0 <= r < |s| && 0 <= c < |s[r]| && s[r][c] != 0 ==> CellFree(b, x + c, y + r)
  }

  /**
   * The collision test, scanning the shape row by row and stopping at the first
   * occupied cell that hits the floor, a side wall or an occupied board cell.
   * Row indices above the board would make the scan fail, so `y` is never negative.
   */
  method CanMoveTo(b: Grid, x: int, y: int, s: Shape) returns (ok: bool)
    requires ValidBoard(b) && 0 <= y
    ensures ok <==> Fits(b, x, y, s)
  {
    var r := 0;
    while r < |s|
      invariant 0 <= r <= |s|
      invariant forall r', c :: 0 <= r' < r && 0 <= c < |s[r']| && s[r'][c] != 0 ==> CellFree(b, x + c, y + r')
    {
      var c := 0;
      while c < |s[r]|
        invariant 0 <= c <= |s[r]|
        invariant forall c' :: 0 <= c' < c && s[r][c'] != 0 ==> CellFree(b, x + c', y + r)
      {
        if s[r][c] != 0 {
          if y + r >= Height || x + c < 0 || x + c >= Width || b[y + r][x + c] != 0 {
            return false;
          }
        }
        c := c + 1;
      }
      r := r + 1;
    }
    return true;
  }

  /** Board cell (row, col) is under an occupied cell of piece `p`. */
  predicate Covers(p: Piece, row: int, col: int) {
    var r, c := row - p.y, col - p.x;
    0 <= r < |p.shape| && 0 <= c < |p.shape[r]| && p.shape[r][c] != 0
  }

  /** The grid after piece `p` is locked: its family tag on the cells it covers, the rest as before. */
  function Stamp(b: Grid, p: Piece): (b': Grid)
    requires ValidBoard(b)
    ensures ValidBoard(b')
  {
    seq(Height, i requires 0 <= i < Height =>
      seq(Width, j requires 0 <= j < Width => if Covers(p, i, j) then p.tag else b[i][j]))
  }

  /** The board cells under the occupied cells of piece `p`. */
  function PieceCells(p: Piece): set<Cell> {
    set rc | rc in Cells(p.shape) :: (p.y + rc.0, p.x + rc.1)
  }

  /** The cells of `PieceCells(p)` are exactly the board cells `p` covers. */
  lemma PieceCellsCovered(p: Piece)
    ensures forall row, col :: (row, col) in PieceCells(p) <==> Covers(p, row, col)
  {
  }

  /** Translating a shape onto the board keeps its number of occupied cells. */
  lemma PieceCellsSize(p: Piece)
    ensures |PieceCells(p)| == Size(p.shape)
  {
    var f := (rc: Cell) => (p.y + rc.0, p.x + rc.1);
    InjectiveImageSize(Cells(p.shape), f);
    assert PieceCells(p) == set rc | rc in Cells(p.shape) :: f(rc);
  }

  /** Every board cell under a legal piece is free. */
  lemma CoveredCellsFree(b: Grid, p: Piece)
    requires ValidBoard(b) && 0 <= p.y && Fits(b, p.x, p.y, p.shape)
    ensures forall row, col :: Covers(p, row, col) ==> 0 <= row && CellFree(b, col, row)
  {
  }

  /**
   * Locking a legal piece with a non-empty tag adds exactly its cells to the
   * occupied ones; they were all empty, so the occupied count grows by its size.
   */
  lemma LockAddsPieceCells(b: Grid, p: Piece)
    requires ValidBoard(b) && 0 <= p.y && Fits(b, p.x, p.y, p.shape) && p.tag != 0
    ensures Occupied(Stamp(b, p)) == Occupied(b) + PieceCells(p)
    ensures Occupied(b) * PieceCells(p) == {}
    ensures |Occupied(Stamp(b, p))| == |Occupied(b)| + Size(p.shape)
  {
    var b' := Stamp(b, p);
    PieceCellsCovered(p);
    forall rc | rc in PieceCells(p) ensures rc in Occupied(b') && rc !in Occupied(b) {
      var r, c := rc.0 - p.y, rc.1 - p.x;
      assert CellFree(b, p.x + c, p.y + r);
    }
    CoveredCellsFree(b, p);
    assert Occupied(b') == Occupied(b) + PieceCells(p);
    PieceCellsSize(p);
  }

  /** A freshly spawned piece is legal on an empty board. */
  lemma SpawnFitsEmpty(i: nat)
    requires i < |Templates|
    ensures Fits(EmptyBoard(), Spawn(i).x, 0, Spawn(i).shape)
  {
  }

  /**
   * The 2-by-2 block spawned at column 4 on an empty board can sit on every row
   * down to 18 and not on row 19, where its lower half would be below the floor.
   */
  lemma SquareFallsToFloor()
    ensures Spawn(0).x == 4
    ensures forall y :: 0 <= y <= 18 ==> Fits(EmptyBoard(), 4, y, Spawn(0).shape)
    ensures !Fits(EmptyBoard(), 4, 19, Spawn(0).shape)
  {
    var s := Spawn(0).shape;
    assert s == [[1, 1], [1, 1]];
    assert s[1][0] != 0 && !CellFree(EmptyBoard(), 4 + 0, 19 + 1);
  }
}
