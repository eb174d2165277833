/** The game object: the field and the active piece as mutable state, with
    the routines that change them in place. Every routine is proved against
    the value-level specification in module Engine. */
module Tetris {
  import opened Grid
  import opened Pieces
  import opened Placement
  import opened Engine

  datatype Option<T> = None | Some(value: T)

  /** The key bindings: a/A move left, d/D right, s/S down; any other key
      has no direction. */
  function KeyDirection(key: string): (d: Option<string>)
    ensures d.Some? <==> key in {"a", "A", "d", "D", "s", "S"}
    ensures d.Some? ==> d.value in {"left", "right", "down"}
  {
    if key == "a" || key == "A" then Some("left")
    else if key == "d" || key == "D" then Some("right")
    else if key == "s" || key == "S" then Some("down")
    else None
  }

  class Game {
    var board: Board
    var px: int
    var py: int
    var shape: Shape
    var gameOver: bool

    /** The whole state as a value. */
    function State(): GameState
      reads this
    {
      GameState(board, px, py, shape, gameOver)
    }

    ghost predicate Valid()
      reads this
    {
      Inv(State())
    }

    /** Start-up: an all-white field built row by row, the 2x2 square at
        (0, 0) as the first piece, and a running game. */
    constructor ()
      ensures Valid()
      ensures State() == GameState(EmptyBoard(), 0, 0, CATALOG[0], false)
    {
      var b: Board := [];
      var row := 0;
      while row < ROWS
        invariant 0 <= row <= ROWS && |b| == row
        invariant forall i :: 0 <= i < row ==> b[i] == EmptyRow()
      {
        var cells: seq<Tag> := [];
        var col := 0;
        while col < COLS
          invariant 0 <= col <= COLS && |cells| == col
          invariant forall j :: 0 <= j < col ==> cells[j] == White
        {
          cells := cells + [White];
          col := col + 1;
        }
        b := b + [cells];
        row := row + 1;
      }
      board := b;
      px, py := 0, 0;
      shape := CATALOG[0];
      gameOver := false;
      new;
      CatalogShapes(0);
    }

    /** Put a new piece at (SPAWN_X, 0) with catalog entry `choice` as its
        shape; `choice` stands for the random draw. */
    method Spawn(choice: nat)
      requires WellFormed(board) && choice < |CATALOG|
      modifies this
      ensures Valid()
      ensures State() == Spawned(old(State()), choice)
    {
      px := COLS / 2 - 1;
      py := 0;
      shape := CATALOG[choice];
      CatalogShapes(choice);
    }

    /** The line-clear pass, in place: rows ROWS - 1 down to 0 are visited
        once each; a full row is spliced out and a white row put on top. */
    method CheckLines()
      requires Valid()
      modifies this
      ensures Valid()
      ensures board == LineClear(old(board))
      ensures px == old(px) && py == old(py) && shape == old(shape) && gameOver == old(gameOver)
    {
      var row := ROWS - 1;
      while row >= 0
        invariant -1 <= row < ROWS
        invariant WellFormed(board)
        invariant Sweep(board, row) == LineClear(old(board))
        invariant px == old(px) && py == old(py) && shape == old(shape) && gameOver == old(gameOver)
      {
        var isFull := true;
        var col := 0;
        while col < COLS
          invariant 0 <= col <= COLS && isFull
          invariant forall j :: 0 <= j < col ==> board[row][j] != White
        {
          if board[row][col] == White {
            isFull := false;
            break;
          }
          col := col + 1;
        }
        assert isFull == IsFull(board[row]);
        if isFull {
          ghost var before := board;
          board := board[..row] + board[row + 1..];
          board := [EmptyRow()] + board;
          assert board == ClearRow(before, row);
        }
        row := row - 1;
      }
    }

    /** Lock-in: every filled cell of the piece turns its board cell blue,
        then the line-clear pass runs. The piece itself is not touched. */
    method PlacePiece()
      requires Valid()
      modifies this
      ensures Valid()
      ensures board == Locked(old(State()))
      ensures px == old(px) && py == old(py) && shape == old(shape) && gameOver == old(gameOver)
    {
      ghost var start := board;
      var row := 0;
      while row < |shape|
        invariant 0 <= row <= |shape|
        invariant px == old(px) && py == old(py) && shape == old(shape) && gameOver == old(gameOver)
        invariant StampedUpTo(board, start, shape, px, py, row, 0)
      {
        var col := 0;
        while col < |shape[row]|
          invariant row < |shape| && 0 <= col <= |shape[row]|
          invariant px == old(px) && py == old(py) && shape == old(shape) && gameOver == old(gameOver)
          invariant StampedUpTo(board, start, shape, px, py, row, col)
        {
          assert shape[row][col] != 0 ==> Filled(shape, row, col);
          StampCell(board, start, shape, px, py, row, col);
          if shape[row][col] != 0 {
            board := board[py + row := board[py + row][px + col := Blue]];
          }
          col := col + 1;
        }
        StampRowDone(board, start, shape, px, py, row);
        row := row + 1;
      }
      StampDone(board, start, shape, px, py);
      CheckLines();
    }

    /** One move attempt. A frozen game ignores it. Otherwise the origin is
        stepped; if the piece no longer fits, the step is undone, a "down"
        step locks the piece (and clears lines), and any rejected step brings
        in a new piece drawn as catalog entry `choice`. */
    method MovePiece(direction: string, choice: nat)
      requires Valid() && choice < |CATALOG|
      modifies this
      ensures Valid()
      ensures State() == Next(old(State()), direction, choice)
    {
      if gameOver {
        return;
      }
      var canMove := true;
      if direction == "left" {
        px := px - 1;
      } else if direction == "right" {
        px := px + 1;
      } else if direction == "down" {
        py := py + 1;
      }
      var ok := ValidMove(board, shape, px, py);
      if !ok {
        canMove := false;
        if direction == "left" {
          px := px + 1;
        } else if direction == "right" {
          px := px - 1;
        } else if direction == "down" {
          py := py - 1;
          PlacePiece();
        }
      } else {
        FitsInBounds(board, shape, px, py);
      }
      if !canMove {
        Spawn(choice);
      }
    }

    /** One timer tick: a "down" move attempt. */
    method Tick(choice: nat)
      requires Valid() && choice < |CATALOG|
      modifies this
      ensures Valid()
      ensures State() == Next(old(State()), "down", choice)
    {
      MovePiece("down", choice);
    }

    /** A key press: ignored once the game is over or when the key has no
        direction; otherwise one move attempt in the key's direction. */
    method KeyDown(key: string, choice: nat)
      requires Valid() && choice < |CATALOG|
      modifies this
      ensures Valid()
      ensures old(gameOver) || KeyDirection(key).None? ==> State() == old(State())
      ensures !old(gameOver) && KeyDirection(key).Some? ==>
        State() == Next(old(State()), KeyDirection(key).value, choice)
    {
      if gameOver {
        return;
      }
      var d := KeyDirection(key);
      if d.Some? {
        MovePiece(d.value, choice);
      }
    }

    /** Restart: the flag is cleared, every cell is set back to white in
        place, and a new piece is spawned. */
    method Reset(choice: nat)
      requires Valid() && choice < |CATALOG|
      modifies this
      ensures Valid()
      ensures State() == GameState(EmptyBoard(), SPAWN_X, 0, CATALOG[choice], false)
    {
      gameOver := false;
      var row := 0;
      while row < ROWS
        invariant 0 <= row <= ROWS && !gameOver
        invariant WellFormed(board)
        invariant forall i, j :: 0 <= i < row && 0 <= j < COLS ==> board[i][j] == White
      {
        var col := 0;
        while col < COLS
          invariant 0 <= col <= COLS && !gameOver
          invariant WellFormed(board)
          invariant forall i, j :: 0 <= i < row && 0 <= j < COLS ==> board[i][j] == White
          invariant forall j :: 0 <= j < col ==> board[row][j] == White
        {
          board := board[row := board[row][col := White]];
          col := col + 1;
        }
        row := row + 1;
      }
      assert board == EmptyBoard() by {
        forall i | 0 <= i < ROWS
          ensures board[i] == EmptyBoard()[i]
        {
        }
      }
      Spawn(choice);
    }
  }
}
