/** The game state as a value and the move transition as a function of it:
    the specification the `Game` class is proved against. */
module Engine {
  import opened Grid
  import opened Pieces
  import opened Placement

  /** The field, the active piece's origin (x, y) and shape, and the flag
      that freezes the game. */
  datatype GameState = GameState(board: Board, x: int, y: int, shape: Shape, gameOver: bool)

  /** What holds between any two moves: the field keeps its size, the origin
      row is non-negative, the shape is a catalog shape and all its filled
      cells lie on the board. */
  ghost predicate Inv(s: GameState) {
    WellFormed(s.board) && s.y >= 0 && s.shape in CATALOG && InBounds(s.shape, s.x, s.y)
  }

  /** The tentative step for a direction token; any other token keeps the
      origin where it is. */
  function Step(direction: string, x: int, y: int): (int, int) {
    if direction == "left" then (x - 1, y)
    else if direction == "right" then (x + 1, y)
    else if direction == "down" then (x, y + 1)
    else (x, y)
  }

  /** A new piece from the catalog at (SPAWN_X, 0); the field and the flag stay. */
  function Spawned(s: GameState, choice: nat): (r: GameState)
    requires choice < |CATALOG|
    ensures r.x == SPAWN_X && r.y == 0 && r.shape == CATALOG[choice]
    ensures r.board == s.board && r.gameOver == s.gameOver
  {
    s.(x := SPAWN_X, y := 0, shape := CATALOG[choice])
  }

  /** The field after the piece locks where it stands: its cells turn blue,
      then the line-clear pass runs. */
  function Locked(s: GameState): Board
    requires WellFormed(s.board)
  {
    LineClear(Stamped(s.board, s.shape, s.x, s.y))
  }

  /** One call of the move routine. A frozen game is left alone. Otherwise the
      step is tried: if the piece fits there, only the origin moves. If not,
      the origin is restored, a rejected "down" locks the piece and clears
      lines, and every rejection (whatever the direction) spawns a new piece
      drawn as catalog entry `choice`. */
  ghost function Next(s: GameState, direction: string, choice: nat): (r: GameState)
    requires WellFormed(s.board) && s.y >= 0 && choice < |CATALOG|
    ensures WellFormed(r.board) && r.y >= 0
    ensures r.gameOver == s.gameOver
    ensures s.gameOver ==> r == s
  {
    if s.gameOver then s
    else
      var p := Step(direction, s.x, s.y);
      if Fits(s.board, s.shape, p.0, p.1) then s.(x := p.0, y := p.1)
      else if direction == "down" then Spawned(s.(board := Locked(s)), choice)
      else Spawned(s, choice)
  }

  /** `n` successive moves in the same direction, each rejection drawing the
      same catalog entry: `n` timer ticks when `direction` is "down". */
  ghost function Run(s: GameState, direction: string, choice: nat, n: nat): (r: GameState)
    requires WellFormed(s.board) && s.y >= 0 && choice < |CATALOG|
    ensures WellFormed(r.board) && r.y >= 0
    ensures r.gameOver == s.gameOver
    decreases n
  {
    if n == 0 then s else Run(Next(s, direction, choice), direction, choice, n - 1)
  }

  /** Moves split at any point: n + m moves are n moves followed by m. */
  lemma {:induction false} RunSplit(s: GameState, direction: string, choice: nat, n: nat, m: nat)
    requires WellFormed(s.board) && s.y >= 0 && choice < |CATALOG|
    ensures Run(s, direction, choice, n + m) == Run(Run(s, direction, choice, n), direction, choice, m)
    decreases n
  {
    if n > 0 {
      RunSplit(Next(s, direction, choice), direction, choice, n - 1, m);
    }
  }

  /** Every move keeps the state invariant. */
  lemma NextPreservesInv(s: GameState, direction: string, choice: nat)
    requires Inv(s) && choice < |CATALOG|
    ensures Inv(Next(s, direction, choice))
  {
    var p := Step(direction, s.x, s.y);
    if !s.gameOver {
      if Fits(s.board, s.shape, p.0, p.1) {
        FitsInBounds(s.board, s.shape, p.0, p.1);
      } else {
        CatalogShapes(choice);
      }
    }
  }

  /** An accepted move changes the origin only: x - 1 for "left", x + 1 for
      "right", y + 1 for "down", nothing for any other token. */
  lemma AcceptedMove(s: GameState, direction: string, choice: nat)
    requires Inv(s) && choice < |CATALOG| && !s.gameOver
    requires Fits(s.board, s.shape, Step(direction, s.x, s.y).0, Step(direction, s.x, s.y).1)
    ensures var r := Next(s, direction, choice);
      r.board == s.board && r.shape == s.shape && !r.gameOver &&
      (direction == "left" ==> r.x == s.x - 1 && r.y == s.y) &&
      (direction == "right" ==> r.x == s.x + 1 && r.y == s.y) &&
      (direction == "down" ==> r.x == s.x && r.y == s.y + 1) &&
      (direction !in {"left", "right", "down"} ==> r.x == s.x && r.y == s.y)
  {
  }

  /** A rejected "down" locks the piece at its restored position (the cells
      under its filled cells, and no others, turn blue), runs the line-clear
      pass and spawns the next piece. */
  lemma RejectedDown(s: GameState, choice: nat)
    requires Inv(s) && choice < |CATALOG| && !s.gameOver
    requires !Fits(s.board, s.shape, s.x, s.y + 1)
    ensures var r := Next(s, "down", choice);
      r == GameState(LineClear(Stamped(s.board, s.shape, s.x, s.y)), SPAWN_X, 0, CATALOG[choice], false)
  {
  }

  /** A rejected sideways move leaves the field alone and still spawns the
      next piece. */
  lemma RejectedSideways(s: GameState, direction: string, choice: nat)
    requires Inv(s) && choice < |CATALOG| && !s.gameOver
    requires direction == "left" || direction == "right"
    requires !Fits(s.board, s.shape, Step(direction, s.x, s.y).0, s.y)
    ensures Next(s, direction, choice) == GameState(s.board, SPAWN_X, 0, CATALOG[choice], false)
  {
  }

  /** Pushing a piece left at the left wall is rejected (every catalog shape
      has a filled cell in its leftmost column) and replaces the piece. */
  lemma LeftAtWallRespawns(s: GameState, choice: nat)
    requires Inv(s) && choice < |CATALOG| && !s.gameOver && s.x == 0
    ensures Next(s, "left", choice) == Spawned(s, choice)
  {
    var k :| 0 <= k < |CATALOG| && CATALOG[k] == s.shape;
    CatalogShapes(k);
    var r :| Filled(s.shape, r, 0);
    assert !Free(s.board, s.y + r, -1);
  }

  /** The 2x2 square stands anywhere on the empty field from row 0 to row
      ROWS - 2 at the spawn column, and not one row lower. */
  lemma SquareOnEmptyBoard(y: int)
    requires 0 <= y
    ensures Fits(EmptyBoard(), CATALOG[0], SPAWN_X, y) <==> y <= ROWS - 2
  {
    var sq := CATALOG[0];
    if y > ROWS - 2 {
      assert Filled(sq, 1, 0) && !Free(EmptyBoard(), y + 1, SPAWN_X);
    }
  }

  /** The piece fits at each of the next `n` rows below it. */
  ghost predicate FitsBelow(s: GameState, n: nat)
    requires WellFormed(s.board) && s.y >= 0
  {
    forall y' :: s.y < y' <= s.y + n ==> Fits(s.board, s.shape, s.x, y')
  }

  /** While it fits one row lower, a piece falls one row per tick and nothing
      else changes. */
  lemma {:induction false} FreeFall(s: GameState, n: nat, choice: nat)
    requires WellFormed(s.board) && s.y >= 0 && choice < |CATALOG| && !s.gameOver
    requires FitsBelow(s, n)
    ensures Run(s, "down", choice, n) == s.(y := s.y + n)
    decreases n
  {
    if n > 0 {
      var s' := s.(y := s.y + 1);
      assert Fits(s.board, s.shape, s.x, s.y + 1);
      assert Next(s, "down", choice) == s';
      FreeFall(s', n - 1, choice);
    }
  }

  /** The square spawned on the empty field locks on the floor: its tick at
      row ROWS - 2 is rejected, the four cells it covers turn blue (no row is
      full, so nothing is cleared) and the next piece is spawned. */
  lemma SquareLocksOnFloor(choice: nat)
    requires choice < |CATALOG|
    ensures var r := Next(GameState(EmptyBoard(), SPAWN_X, ROWS - 2, CATALOG[0], false), "down", choice);
      r.x == SPAWN_X && r.y == 0 && r.shape == CATALOG[choice] && !r.gameOver &&
      forall i, j :: InGrid(i, j) ==>
        (r.board[i][j] == Blue <==> ROWS - 2 <= i && SPAWN_X <= j <= SPAWN_X + 1)
  {
    var sq := CATALOG[0];
    SquareOnEmptyBoard(ROWS - 1);
    var stamped := Stamped(EmptyBoard(), sq, SPAWN_X, ROWS - 2);
    forall i | 0 <= i < ROWS
      ensures !IsFull(stamped[i])
    {
      assert !Covers(sq, SPAWN_X, ROWS - 2, i, 0);
    }
    SweepWithoutFullRows(stamped, |stamped| - 1);
  }

  /** The whole drop: a square spawned on the empty
      field falls for ROWS - 2 ticks, and tick ROWS - 1 locks it on the floor
      and spawns the next piece at (SPAWN_X, 0). */
  lemma SquareLandsOnFloor(choice: nat, ticks: nat)
    requires choice < |CATALOG| && ticks == ROWS - 1
    ensures var r := Run(GameState(EmptyBoard(), SPAWN_X, 0, CATALOG[0], false), "down", choice, ticks);
      r.x == SPAWN_X && r.y == 0 && r.shape == CATALOG[choice] && !r.gameOver &&
      forall i, j :: InGrid(i, j) ==>
        (r.board[i][j] == Blue <==> ROWS - 2 <= i && SPAWN_X <= j <= SPAWN_X + 1)
  {
    var s0 := GameState(EmptyBoard(), SPAWN_X, 0, CATALOG[0], false);
    forall y' | 0 < y' <= ROWS - 2
      ensures Fits(s0.board, s0.shape, SPAWN_X, y')
    {
      SquareOnEmptyBoard(y');
    }
    FreeFall(s0, ticks - 1, choice);
    RunSplit(s0, "down", choice, ticks - 1, 1);
    SquareLocksOnFloor(choice);
  }
}
