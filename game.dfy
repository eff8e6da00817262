/** The game state the engine mutates, and the steps that mutate it. */
module Game {
  import opened Dimensions
  import opened Shapes
  import opened Board
  import opened LineClear

  datatype Option<T> = None | Some(value: T)

  /** The keys the handler reacts to; any other key does nothing. */
  datatype Key = ArrowLeft | ArrowRight | ArrowDown | ArrowUp | OtherKey

  /** A piece that can live on the board: a proper rectangle, never above row 0, with a non-empty tag. */
  predicate WellFormed(p: Piece) {
    Rectangular(p.shape) && 0 <= p.y && p.tag != 0
  }

  /** Piece `p` with its shape moved by (dx, dy) is legal on `b`. */
  predicate CanShift(b: Grid, p: Piece, dx: int, dy: int)
    requires ValidBoard(b) && 0 <= p.y + dy
  {
    Fits(b, p.x + dx, p.y + dy, p.shape)
  }

  /** The piece after a move request: shifted when that is legal, untouched otherwise. */
  function Moved(b: Grid, p: Piece, dx: int, dy: int): (q: Piece)
    requires ValidBoard(b) && 0 <= p.y && 0 <= dy
    ensures q.shape == p.shape && q.tag == p.tag
    ensures q.y >= p.y
    ensures Fits(b, p.x, p.y, p.shape) ==> Fits(b, q.x, q.y, q.shape)
    ensures CanShift(b, p, dx, dy) ==> q.x == p.x + dx && q.y == p.y + dy
    ensures !CanShift(b, p, dx, dy) ==> q == p
  {
    if CanShift(b, p, dx, dy) then p.(x := p.x + dx, y := p.y + dy) else p
  }

  /** The piece after a rotation request: turned clockwise in place when that is legal. */
  function Rotated(b: Grid, p: Piece): (q: Piece)
    requires ValidBoard(b) && WellFormed(p)
    ensures WellFormed(q) && q.x == p.x && q.y == p.y && q.tag == p.tag
    ensures Size(q.shape) == Size(p.shape)
    ensures Fits(b, p.x, p.y, p.shape) ==> Fits(b, q.x, q.y, q.shape)
    ensures Fits(b, p.x, p.y, Rotate(p.shape)) ==> q.shape == Rotate(p.shape)
    ensures !Fits(b, p.x, p.y, Rotate(p.shape)) ==> q == p
  {
    RotateKeepsSize(p.shape);
    if Fits(b, p.x, p.y, Rotate(p.shape)) then p.(shape := Rotate(p.shape)) else p
  }

  /** The piece after a key press while the game runs. */
  function AfterKey(b: Grid, p: Piece, k: Key): (q: Piece)
    requires ValidBoard(b) && WellFormed(p)
    ensures WellFormed(q) && q.tag == p.tag && q.y >= p.y
    ensures Fits(b, p.x, p.y, p.shape) ==> Fits(b, q.x, q.y, q.shape)
  {
    match k
    case ArrowLeft => Moved(b, p, -1, 0)
    case ArrowRight => Moved(b, p, 1, 0)
    case ArrowDown => Moved(b, p, 0, 1)
    case ArrowUp => Rotated(b, p)
    case OtherKey => p
  }

  class Game {
    var board: Grid
    var piece: Option<Piece>
    var score: int
    var level: int
    var gameOver: bool
    /** Period in milliseconds of the tick timer last started; 0 before the first start. */
    var interval: int

    function Counters(): Stats
      reads this
    {
      Stats(score, level, interval)
    }

    /**
     * Before the first start there is no piece and no grid. Once a game has started
     * the grid is Height by Width, the counters are consistent, and while the game
     * is not over the live piece sits at a legal position.
     */
    ghost predicate Valid()
      reads this
    {
      match piece
      case None => board == [] && !gameOver
      case Some(p) =>
        ValidBoard(board) && WellFormed(p) && Consistent(Counters()) &&
        (!gameOver ==> Fits(board, p.x, p.y, p.shape))
    }

    /** The state when the page loads: empty board array, no piece, no timer. */
    constructor ()
      ensures Valid() && piece == None && board == []
      ensures score == 0 && level == 1 && !gameOver && interval == 0
    {
      board := [];
      piece := None;
      score := 0;
      level := 1;
      gameOver := false;
      interval := 0;
    }

    /**
     * New game: empty grid, score 0, level 1, game running, a fresh piece from
     * template `i` (no legality test: an empty grid always takes it), tick every 1000 ms.
     */
    method Start(i: nat)
      requires i < |Templates|
      modifies this
      ensures Valid()
      ensures board == EmptyBoard() && piece == Some(Spawn(i))
      ensures Counters() == Initial && !gameOver
    {
      board := EmptyBoard();
      score := 0;
      level := 1;
      gameOver := false;
      piece := Some(Spawn(i));
      interval := 1000;
      SpawnFitsEmpty(i);
      TemplatesWellFormed();
    }

    /** Shift the piece by (dx, dy) when the target is legal; says whether it moved. */
    method Move(dx: int, dy: int) returns (moved: bool)
      requires Valid() && piece.Some? && 0 <= dy
      modifies this`piece
      ensures Valid()
      ensures moved == CanShift(board, old(piece).value, dx, dy)
      ensures piece == Some(Moved(board, old(piece).value, dx, dy))
    {
      var p := piece.value;
      moved := CanMoveTo(board, p.x + dx, p.y + dy, p.shape);
      if moved {
        piece := Some(p.(x := p.x + dx, y := p.y + dy));
      }
    }

    /** Turn the piece clockwise when the turned shape is legal at the same offset. */
    method RotatePiece()
      requires Valid() && piece.Some?
      modifies this`piece
      ensures Valid()
      ensures piece == Some(Rotated(board, old(piece).value))
    {
      var p := piece.value;
      var turned := Rotate(p.shape);
      var ok := CanMoveTo(board, p.x, p.y, turned);
      if ok {
        piece := Some(p.(shape := turned));
      }
    }

    /** The key handler: ignored once the game is over, otherwise one of the four commands. */
    method HandleKey(k: Key)
      requires Valid() && piece.Some?
      modifies this`piece
      ensures Valid()
      ensures piece == if old(gameOver) then old(piece) else Some(AfterKey(board, old(piece).value, k))
    {
      if !gameOver {
        match k {
          case ArrowLeft => var _ := Move(-1, 0);
          case ArrowRight => var _ := Move(1, 0);
          case ArrowDown => var _ := Move(0, 1);
          case ArrowUp => RotatePiece();
          case OtherKey =>
        }
      }
    }

    /** Write the piece's tag onto every board cell under one of its occupied cells. */
    method Lock()
      requires Valid() && piece.Some? && !gameOver
      modifies this`board
      ensures board == Stamp(old(board), piece.value)
    {
      var p := piece.value;
      ghost var b0 := board;
      var r := 0;
      while r < |p.shape|
        invariant 0 <= r <= |p.shape|
        invariant ValidBoard(board)
        invariant forall i, j :: 0 <= i < Height && 0 <= j < Width ==>
          board[i][j] == if Covers(p, i, j) && i - p.y < r then p.tag else b0[i][j]
      {
        var c := 0;
        while c < |p.shape[r]|
          invariant 0 <= c <= |p.shape[r]|
          invariant ValidBoard(board)
          invariant forall i, j :: 0 <= i < Height && 0 <= j < Width ==>
            board[i][j] == if Covers(p, i, j) && (i - p.y < r || (i - p.y == r && j - p.x < c)) then p.tag else b0[i][j]
        {
          if p.shape[r][c] != 0 {
            assert CellFree(b0, p.x + c, p.y + r);
            board := board[p.y + r := board[p.y + r][p.x + c := p.tag]];
          }
          c := c + 1;
        }
        r := r + 1;
      }
      assert |board| == Height;
      forall i | 0 <= i < Height ensures board[i] == Stamp(b0, p)[i] {
        assert |board[i]| == Width;
      }
    }

    /**
     * One bottom-to-top pass over the rows, as written: a full row at index y is
     * spliced out, an empty row is put on top, 100 points are added (and the level
     * and timer updated on a multiple of 1000), and the scan moves on to y - 1.
     */
    method ClearRows()
      requires ValidBoard(board)
      modifies this`board, this`score, this`level, this`interval
      ensures board == ClearLines(old(board)).rows
      ensures Counters() == AwardN(old(Counters()), ClearLines(old(board)).cleared)
    {
      ghost var goal := ClearLines(board);
      ghost var st0 := Counters();
      ghost var done: nat := 0;
      var y := Height - 1;
      while y >= 0
        invariant -1 <= y < Height && |board| == Height
        invariant Scan(board, y).rows == goal.rows
        invariant done + Scan(board, y).cleared == goal.cleared
        invariant Counters() == AwardN(st0, done)
      {
        if Full(board[y]) {
          board := board[..y] + board[y + 1..];
          board := [EmptyRow()] + board;
          score := score + 100;
          if score % 1000 == 0 {
            level := level + 1;
            interval := 1000 - level * 50;
          }
          done := done + 1;
        }
        y := y - 1;
      }
    }

    /**
     * One timer tick: move the piece down a row if that is legal; otherwise lock it,
     * clear rows, spawn a piece from template `i`, and end the game when the new
     * piece does not fit. Ticks stop once the game is over, so none arrives then.
     */
    method Tick(i: nat)
      requires Valid() && piece.Some? && !gameOver && i < |Templates|
      modifies this
      ensures Valid()
      ensures var p := old(piece).value;
        CanShift(old(board), p, 0, 1) ==>
          piece == Some(p.(y := p.y + 1)) && board == old(board) && Counters() == old(Counters()) && !gameOver
      ensures var p := old(piece).value;
        !CanShift(old(board), p, 0, 1) ==>
          var swept := ClearLines(Stamp(old(board), p));
          board == swept.rows && Counters() == AwardN(old(Counters()), swept.cleared) &&
          piece == Some(Spawn(i)) && gameOver == !Fits(board, Spawn(i).x, 0, Spawn(i).shape)
    {
      var moved := Move(0, 1);
      if !moved {
        Lock();
        ClearLinesIsCompact(board);
        ClearRows();
        var next := Spawn(i);
        piece := Some(next);
        TemplatesWellFormed();
        var fits := CanMoveTo(board, next.x, next.y, next.shape);
        if !fits {
          gameOver := true;
        }
      }
    }
  }
}
