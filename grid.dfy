/** The playing field: a fixed ROWS x COLS grid of colour tags, and the
    single bottom-to-top line-clear pass run after every lock-in. */
module Grid {

  const ROWS: nat := 20
  const COLS: nat := 10

  /** A cell's colour tag: 'white' marks an empty cell, 'blue' a locked one. */
  datatype Tag = White | Blue

  /** Row 0 is the top of the field, row ROWS - 1 the floor. */
  type Board = seq<seq<Tag>>

  predicate InGrid(i: int, j: int) {
    0 <= i < ROWS && 0 <= j < COLS
  }

  /** Exactly ROWS rows of exactly COLS cells each. */
  predicate WellFormed(b: Board) {
    |b| == ROWS && forall i :: 0 <= i < |b| ==> |b[i]| == COLS
  }

  /** The row `Array(COLS).fill('white')`. */
  function EmptyRow(): (row: seq<Tag>)
    ensures |row| == COLS
    ensures forall j :: 0 <= j < |row| ==> row[j] == White
  {
    seq(COLS, _ => White)
  }

  /** The field as it is built at start-up: every cell white. */
  function EmptyBoard(): (b: Board)
    ensures WellFormed(b)
    ensures forall i, j :: InGrid(i, j) ==> b[i][j] == White
  {
    seq(ROWS, _ => EmptyRow())
  }

  /** A row is full when none of its cells is white. */
  predicate IsFull(row: seq<Tag>) {
    forall j :: 0 <= j < |row| ==> row[j] != White
  }

  /** Remove row `r` (splice) and put a fresh white row on top (unshift):
      the rows above `r` move down by one, the rows below keep their place. */
  function ClearRow(b: Board, r: nat): (c: Board)
    requires WellFormed(b) && r < ROWS
    ensures WellFormed(c)
    ensures c[0] == EmptyRow()
    ensures forall i :: 0 < i <= r ==> c[i] == b[i - 1]
    ensures forall i :: r < i < ROWS ==> c[i] == b[i]
  {
    [EmptyRow()] + b[..r] + b[r + 1..]
  }

  /** The line-clear pass over the indices `row`, `row - 1`, ..., `0`, each
      visited once: a full row is cleared and the scan moves on to the next
      smaller index, so the row that has just shifted into the cleared index
      is not looked at again. `Sweep(b, ROWS - 1)` is the whole pass. */
  function Sweep(b: Board, row: int): (c: Board)
    requires WellFormed(b) && -1 <= row < ROWS
    ensures WellFormed(c)
    decreases row + 1
  {
    if row < 0 then b
    else if IsFull(b[row]) then Sweep(ClearRow(b, row), row - 1)
    else Sweep(b, row - 1)
  }

  /** The whole line-clear pass, from the floor row up to row 0. */
  function LineClear(b: Board): (c: Board)
    requires WellFormed(b)
    ensures WellFormed(c)
  {
    Sweep(b, |b| - 1)
  }

  /** The pass never touches a row below the index it starts from. */
  lemma {:induction false} SweepLeavesLowerRows(b: Board, row: int, i: int)
    requires WellFormed(b) && -1 <= row < i < ROWS
    ensures Sweep(b, row)[i] == b[i]
    decreases row + 1
  {
    if row >= 0 {
      if IsFull(b[row]) {
        SweepLeavesLowerRows(ClearRow(b, row), row - 1, i);
      } else {
        SweepLeavesLowerRows(b, row - 1, i);
      }
    }
  }

  /** A field in which none of the scanned rows is full comes out unchanged. */
  lemma {:induction false} SweepWithoutFullRows(b: Board, row: int)
    requires WellFormed(b) && -1 <= row < ROWS
    requires forall i :: 0 <= i <= row ==> !IsFull(b[i])
    ensures Sweep(b, row) == b
    decreases row + 1
  {
    if row >= 0 {
      SweepWithoutFullRows(b, row - 1);
    }
  }

  /** Scanning over rows that are not full changes nothing. */
  lemma {:induction false} SweepPassesOver(b: Board, row: int, r: int)
    requires WellFormed(b) && -1 <= r <= row < ROWS
    requires forall i :: r < i <= row ==> !IsFull(b[i])
    ensures Sweep(b, row) == Sweep(b, r)
    decreases row - r
  {
    if row > r {
      SweepPassesOver(b, row - 1, r);
    }
  }

  /** With exactly one full row, the whole pass removes that row and puts one
      white row on top; nothing else moves. */
  lemma SweepSingleFullRow(b: Board, r: nat)
    requires WellFormed(b) && r < ROWS && IsFull(b[r])
    requires forall i :: 0 <= i < ROWS && i != r ==> !IsFull(b[i])
    ensures LineClear(b) == ClearRow(b, r)
  {
    SweepPassesOver(b, |b| - 1, r);
    var c := ClearRow(b, r);
    assert !IsFull(c[0]) by {
      assert c[0][0] == White;
    }
    forall i | 0 < i <= r - 1
      ensures !IsFull(c[i])
    {
      assert c[i] == b[i - 1];
    }
    SweepWithoutFullRows(c, r - 1);
  }

  /** Two adjacent full rows are not both cleared by one pass: once row `row`
      is cleared, the full row above it shifts into index `row` and the scan
      has already moved on, so the field keeps a full row there. */
  lemma SweepSkipsShiftedRow(b: Board, row: int)
    requires WellFormed(b) && 1 <= row < ROWS
    requires IsFull(b[row]) && IsFull(b[row - 1])
    ensures Sweep(b, row)[row] == b[row - 1]
    ensures IsFull(Sweep(b, row)[row])
  {
    SweepLeavesLowerRows(ClearRow(b, row), row - 1, row);
  }

  /** Over the whole pass: with the two bottom rows full, only the floor row
      is cleared and the other full row ends up on the floor. */
  lemma LineClearLeavesSecondFullRow(b: Board)
    requires WellFormed(b) && IsFull(b[ROWS - 1]) && IsFull(b[ROWS - 2])
    ensures LineClear(b)[ROWS - 1] == b[ROWS - 2]
    ensures IsFull(LineClear(b)[ROWS - 1])
  {
    SweepSkipsShiftedRow(b, |b| - 1);
  }
}
