/** Collision and lock-in: whether a piece may stand at a position, and what
    locking it into the field writes. */
module Placement {
  import opened Grid
  import opened Pieces

  /** Board cell (i, j) can take a piece cell: its column is on the board,
      its row is above the floor and it is white. There is deliberately no
      test `i >= 0`; callers keep the piece's origin row non-negative. */
  predicate Free(b: Board, i: int, j: int)
    requires WellFormed(b) && i >= 0
  {
    0 <= j < COLS && i < ROWS && b[i][j] == White
  }

  /** `shape` may stand at (x, y): every filled cell lands on a free cell. */
  ghost predicate Fits(b: Board, shape: Shape, x: int, y: int)
    requires WellFormed(b) && y >= 0
  {
    forall r, c :: Filled(shape, r, c) ==> Free(b, y + r, x + c)
  }

  /** A position that fits (with a non-negative origin row) keeps every
      filled cell on the board. */
  lemma FitsInBounds(b: Board, shape: Shape, x: int, y: int)
    requires WellFormed(b) && y >= 0 && Fits(b, shape, x, y)
    ensures InBounds(shape, x, y)
  {
  }

  /** The collision check: scans the shape row by row and rejects at the
      first filled cell that leaves the sides or the floor or hits a
      non-white cell. */
  method ValidMove(board: Board, shape: Shape, x: int, y: int) returns (ok: bool)
    requires WellFormed(board) && y >= 0
    ensures ok <==> Fits(board, shape, x, y)
  {
    var row := 0;
    while row < |shape|
      invariant 0 <= row <= |shape|
      invariant forall r, c :: Filled(shape, r, c) && r < row ==> Free(board, y + r, x + c)
    {
      var col := 0;
      while col < |shape[row]|
        invariant 0 <= col <= |shape[row]|
        invariant forall r, c :: Filled(shape, r, c) && r < row ==> Free(board, y + r, x + c)
        invariant forall c :: Filled(shape, row, c) && c < col ==> Free(board, y + row, x + c)
      {
        if shape[row][col] != 0 {
          var newX := x + col;
          var newY := y + row;
          if newX < 0 || newX >= COLS || newY >= ROWS || board[newY][newX] != White {
            assert Filled(shape, row, col) && !Free(board, y + row, x + col);
            return false;
          }
        }
        col := col + 1;
      }
      row := row + 1;
    }
    return true;
  }

  /** The field after the piece's filled cells are written 'blue': exactly the
      cells under a filled cell turn blue, every other cell keeps its tag. */
  function Stamped(b: Board, shape: Shape, x: int, y: int): (s: Board)
    requires WellFormed(b)
    ensures WellFormed(s)
    ensures forall r, c :: Filled(shape, r, c) && InGrid(y + r, x + c) ==> s[y + r][x + c] == Blue
    ensures forall i, j :: InGrid(i, j) && !Covers(shape, x, y, i, j) ==> s[i][j] == b[i][j]
  {
    seq(ROWS, i requires 0 <= i < ROWS =>
      seq(COLS, j requires 0 <= j < COLS =>
        if Covers(shape, x, y, i, j) then Blue else b[i][j]))
  }

  /** Cell (i, j) lies under a filled shape cell that a row-major scan has
      already passed when it stands at entry (row, col). */
  predicate CoveredBefore(shape: Shape, x: int, y: int, i: int, j: int, row: int, col: int) {
    Covers(shape, x, y, i, j) && (i - y < row || (i - y == row && j - x < col))
  }

  /** `b` is `start` with the filled cells before entry (row, col), in
      row-major order, written blue. */
  ghost predicate StampedUpTo(b: Board, start: Board, shape: Shape, x: int, y: int, row: int, col: int) {
    WellFormed(b) && WellFormed(start) &&
    forall i, j :: InGrid(i, j) ==>
      b[i][j] == if CoveredBefore(shape, x, y, i, j, row, col) then Blue else start[i][j]
  }

  /** Writing entry (row, col) of the shape (blue if it is filled, nothing
      otherwise) advances the scan by one entry. */
  lemma StampCell(b: Board, start: Board, shape: Shape, x: int, y: int, row: nat, col: nat)
    requires StampedUpTo(b, start, shape, x, y, row, col)
    requires row < |shape| && col < |shape[row]|
    requires shape[row][col] != 0 ==> InGrid(y + row, x + col)
    ensures shape[row][col] != 0 ==>
      StampedUpTo(b[y + row := b[y + row][x + col := Blue]], start, shape, x, y, row, col + 1)
    ensures shape[row][col] == 0 ==> StampedUpTo(b, start, shape, x, y, row, col + 1)
  {
  }

  /** Finishing a row of the shape is starting the next one. */
  lemma StampRowDone(b: Board, start: Board, shape: Shape, x: int, y: int, row: nat)
    requires row < |shape| && StampedUpTo(b, start, shape, x, y, row, |shape[row]|)
    ensures StampedUpTo(b, start, shape, x, y, row + 1, 0)
  {
  }

  /** Once every entry is scanned, the field is the stamped field. */
  lemma StampDone(b: Board, start: Board, shape: Shape, x: int, y: int)
    requires StampedUpTo(b, start, shape, x, y, |shape|, 0)
    ensures b == Stamped(start, shape, x, y)
  {
    var st := Stamped(start, shape, x, y);
    forall i | 0 <= i < ROWS
      ensures b[i] == st[i]
    {
      forall j | 0 <= j < COLS
        ensures b[i][j] == st[i][j]
      {
        if Covers(shape, x, y, i, j) {
          assert Filled(shape, i - y, j - x);
        }
      }
    }
  }
}
