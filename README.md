# A verified model of a small falling-block game engine

This project models the engine of a browser falling-block game (`tetris.js`)
in Dafny and proves properties of it. The engine keeps a 20 x 10 field of
colour tags (`'white'` = empty, `'blue'` = locked), one active piece (an
origin `x`, `y` and a 0/1 shape matrix), and a `gameOver` flag. It has four
routines:

- `validMove` is the collision check.
- `movePiece` is the move transition. It steps the piece, undoes a rejected
  step, locks the piece when a "down" step is rejected, and spawns a new piece
  after every rejected step.
- `placePiece` locks the piece in and then runs `checkLines`, a single
  bottom-to-top line-clear pass.
- `spawnPiece` draws a shape from a fixed catalog of seven.

The project is split into these modules:

- `Grid` (grid.dfy): the field, its size invariant, row clearing and the
  line-clear pass `Sweep` / `LineClear`, with lemmas about the pass.
- `Pieces` (pieces.dfy): shapes, the seven-shape catalog, and what
  "filled", "covers" and "on the board" mean.
- `Placement` (placement.dfy): the collision predicate `Fits`, the loop
  method `ValidMove` proved equal to it, and the lock-in function `Stamped`.
- `Engine` (engine.dfy): the game state as a value (`GameState`) and the move
  transition `Next` as a function of it. Lemmas about one move, about runs of
  timer ticks, and a complete drop of the square onto the empty field.
- `Tetris` (tetris.dfy): class `Game`. Its fields are the board
  (`seq<seq<Tag>>`, reassigned on every cell write, splice and unshift), `px`,
  `py`, `shape` and `gameOver`. Its methods do what the source does, with the
  same loops, flags and early exits. Each method is proved to leave
  `State()` equal to the specification function of the old state, for
  example `MovePiece` gives `State() == Next(old(State()), direction, choice)`.
  Every method keeps the object invariant `Valid()`.

The invariant `Engine.Inv` says four things. The field has ROWS rows of COLS
cells. The origin row is non-negative. The shape is a catalog shape. Every
filled cell of the piece lies on the board. This invariant is why the
source's unchecked indexing is safe. `validMove` never tests `newY < 0`, and
`placePiece` writes without any bounds test.

The source's quirks are reproduced as written:

- A rejected left/right move (and a rejected move with any other direction
  token) also spawns a new piece.
- `validMove` has no upper-edge test. The model keeps `y >= 0` as an
  invariant instead.
- `checkLines` is one pass over the original indices. The row that shifts
  into a just-cleared index is not looked at again, so two adjacent full
  rows are not both cleared (`Grid.SweepSkipsShiftedRow`,
  `Grid.LineClearLeavesSecondFullRow`).
- A new piece may spawn on top of locked cells. Nothing detects this, and
  `gameOver` is never set to true.

Direction tokens stay strings, as in the source. Any token other than
"left", "right" and "down" leaves the origin where it is, but still goes
through the collision check and, if that check fails, the respawn.

## Model

| member | source | states |
|---|---|---|
| Grid.EmptyBoard | tetris.js:8-14 | the start-up field has ROWS rows of COLS cells, all white |
| Grid.ClearRow | tetris.js:156-161 | clearing row r (splice, then unshift of a white row) keeps the field's size, puts a white row at index 0, moves rows 0..r-1 down by one and leaves the rows below r where they were |
| Grid.Sweep | tetris.js:147-163 | the pass over indices row..0 keeps the field at ROWS rows of COLS cells |
| Grid.LineClear | tetris.js:147-163 | the whole pass (indices ROWS-1 down to 0) keeps the field at ROWS rows of COLS cells |
| Grid.SweepLeavesLowerRows | tetris.js:148-161 | the pass never changes a row below the index it starts from |
| Grid.SweepWithoutFullRows | tetris.js:148-162 | if none of the scanned rows is full, the field is unchanged |
| Grid.SweepPassesOver | tetris.js:148-156 | scanning over rows that are not full changes nothing |
| Grid.SweepSingleFullRow | tetris.js:147-163 | with exactly one full row r, the whole pass gives ClearRow(b, r): that row is removed, a white row appears on top, and the rows above r move down by one |
| Grid.SweepSkipsShiftedRow | tetris.js:148-161 | when rows r and r-1 are both full, after clearing r the old row r-1 sits at index r and stays full: one pass does not clear both |
| Grid.LineClearLeavesSecondFullRow | tetris.js:147-163 | with both bottom rows full, the whole pass leaves the second one, still full, on the floor |
| Pieces.CatalogShapes | tetris.js:130-145 | each of the seven catalog shapes is a rectangular 0/1 matrix with at most 2 rows and 4 columns, lies on the board at (floor(COLS/2)-1, 0), and has a filled cell in its leftmost column |
| Placement.FitsInBounds | tetris.js:102-104 | a position that passes the collision test (with origin row >= 0) keeps every filled cell on the board |
| Placement.ValidMove | tetris.js:98-111 | returns true iff every filled cell (r, c) has x+c in [0, COLS), y+r < ROWS and a white board cell; there is no test of y+r >= 0 |
| Placement.Stamped | tetris.js:113-120 | lock-in turns blue exactly the board cells under the piece's filled cells; every other cell keeps its tag; the field keeps its size |
| Engine.Spawned | tetris.js:124-128 | a spawn puts catalog entry `choice` at (floor(COLS/2)-1, 0) = (4, 0), leaving the field and the flag alone |
| Engine.Next | tetris.js:58-96 | a move keeps the field's size and the origin row non-negative, never changes `gameOver`, and changes nothing at all when `gameOver` is true |
| Engine.Run | tetris.js:165-171 | any number of timer ticks keeps the field's size, a non-negative origin row and the flag |
| Engine.RunSplit | tetris.js:165-171 | n + m ticks are n ticks followed by m ticks |
| Engine.NextPreservesInv | tetris.js:58-96 | every move keeps the invariant: field size, origin row >= 0, a catalog shape, all filled cells on the board |
| Engine.AcceptedMove | tetris.js:63-75 | a move that fits changes only the origin: x-1 for "left", x+1 for "right", y+1 for "down", nothing for any other token; the field, shape and flag stay |
| Engine.RejectedDown | tetris.js:75-93 | a rejected "down" restores y, writes blue under the piece at that position, runs the line-clear pass and spawns catalog entry `choice` at (4, 0) |
| Engine.RejectedSideways | tetris.js:75-93 | a rejected "left"/"right" leaves the field untouched and still spawns a new piece at (4, 0) |
| Engine.LeftAtWallRespawns | tetris.js:58-93 | a "left" move at x = 0 is always rejected (every catalog shape fills its leftmost column) and only replaces the piece |
| Engine.SquareOnEmptyBoard | tetris.js:98-111 | on the empty field the square fits at (4, y) exactly when y <= ROWS-2 |
| Engine.FreeFall | tetris.js:70-75 | while the piece fits in each of the next n rows, n ticks move it n rows down and change nothing else |
| Engine.SquareLocksOnFloor | tetris.js:84-87 | the tick at row ROWS-2 locks the square: exactly rows 18-19 x columns 4-5 turn blue, nothing is cleared, and the next piece appears at (4, 0) |
| Engine.SquareLandsOnFloor | tetris.js:165-171 | on the empty field, ROWS-1 ticks drop the spawned square to the floor, lock exactly those four cells and spawn the next piece at (4, 0) |
| Tetris.KeyDirection | tetris.js:186-196 | exactly the keys a/A, d/D, s/S have a direction, and it is one of "left", "right", "down" |
| Tetris.Game.constructor | tetris.js:8-26 | start-up state: an all-white field, the 2x2 square at (0, 0), `gameOver` false; the invariant holds |
| Tetris.Game.Spawn | tetris.js:124-128 | the piece becomes catalog entry `choice` at (4, 0); the field and flag are untouched; the invariant holds |
| Tetris.Game.CheckLines | tetris.js:147-163 | the in-place pass, with its inner break loop, splice and unshift, leaves the field equal to LineClear of the old field and touches nothing else |
| Tetris.Game.PlacePiece | tetris.js:113-122 | the in-place writes followed by CheckLines leave the field equal to LineClear(Stamped(old field, piece)); the piece and flag are unchanged |
| Tetris.Game.MovePiece | tetris.js:58-96 | the in-place move leaves the state equal to Next of the old state and keeps the invariant |
| Tetris.Game.Tick | tetris.js:166-171 | a timer tick is exactly a "down" move attempt |
| Tetris.Game.KeyDown | tetris.js:186-196 | a key press does nothing once the game is over or for an unbound key, and otherwise is one move in the key's direction |
| Tetris.Game.Reset | tetris.js:174-184 | restart leaves an all-white field, `gameOver` false, and catalog entry `choice` at (4, 0) |

## Left out

- Drawing (`drawPiece`, `drawBoard`, `draw`, the canvas and its context) is
  rendering through a browser API. The `draw()` call at the end of a move is
  a no-op in the model.
- The `setInterval`/`clearInterval` timer and `intervalId` are host
  scheduling. A tick is modelled as one `MovePiece("down", …)` call
  (`Tetris.Game.Tick`). Stopping the timer when `gameOver` is set is not
  modelled.
- The `keydown` listener registration is DOM wiring. Only its key-to-direction
  mapping and its `gameOver` guard are kept.
- `Math.random` in `randomPiece` is floating-point randomness. It is replaced
  by a caller-supplied catalog index `choice < 7` on `Spawn`, `MovePiece`,
  `Tick`, `KeyDown` and `Reset`.
- Engine.Run: every rejected tick in a run draws the same catalog index
  `choice`. Runs with a different random draw at each respawn are not
  expressed.
- The start-up sequence (`spawnPiece(); startGame();` at the end of the file)
  is not a member of its own. It is the constructor followed by `Spawn`.
- No loss condition is modelled, because the source never sets `gameOver`
  to true. The flag is kept and only its guards are modelled.
- Shape entries are integers, and "filled" means non-zero (JavaScript
  truthiness of numbers). Non-numeric entries are not modelled, because the
  catalog holds only 0 and 1.
- Rows that are off the top of the field (negative row indices) are not
  modelled. In the source, such an index would raise an exception. The model
  keeps `y >= 0` as an invariant, and the fixed catalog never puts a filled
  cell above the origin row.
