/** The falling piece's shape matrices and the fixed seven-shape catalog. */
module Pieces {
  import opened Grid

  /** A 0/1 matrix; a non-zero entry marks a cell the piece occupies,
      relative to the piece's origin (the top-left of its bounding box). */
  type Shape = seq<seq<int>>

  /** Column of a freshly spawned piece: floor(COLS / 2) - 1. */
  const SPAWN_X: int := COLS / 2 - 1

  /** Square, L, mirrored L, line, Z, mirrored Z and T, in this order. */
  const CATALOG: seq<Shape> := [
    [[1, 1], [1, 1]],
    [[1, 0, 0], [1, 1, 1]],
    [[0, 0, 1], [1, 1, 1]],
    [[1, 1, 1, 1]],
    [[1, 1, 0], [0, 1, 1]],
    [[0, 1, 1], [1, 1, 0]],
    [[1, 1, 1], [0, 1, 0]]
  ]

  /** Entry (r, c) exists and is truthy. */
  predicate Filled(shape: Shape, r: int, c: int) {
    0 <= r < |shape| && 0 <= c < |shape[r]| && shape[r][c] != 0
  }

  /** Board cell (i, j) lies under a filled cell of `shape` placed at (x, y). */
  predicate Covers(shape: Shape, x: int, y: int, i: int, j: int) {
    Filled(shape, i - y, j - x)
  }

  /** Every filled cell of `shape` placed at (x, y) lies on the board. */
  ghost predicate InBounds(shape: Shape, x: int, y: int) {
    forall r, c :: Filled(shape, r, c) ==> InGrid(y + r, x + c)
  }

  predicate Rectangular(shape: Shape) {
    |shape| > 0 && forall r :: 0 <= r < |shape| ==> |shape[r]| == |shape[0]|
  }

  predicate Binary(shape: Shape) {
    forall r, c :: 0 <= r < |shape| && 0 <= c < |shape[r]| ==> shape[r][c] == 0 || shape[r][c] == 1
  }

  /** Every catalog shape is a rectangular 0/1 matrix of at most two rows and
      at most four columns, so it lies on the board when spawned at
      (SPAWN_X, 0); and each has a filled cell in its leftmost column. */
  lemma CatalogShapes(k: nat)
    requires k < |CATALOG|
    ensures Rectangular(CATALOG[k]) && Binary(CATALOG[k])
    ensures |CATALOG[k]| <= 2 && |CATALOG[k][0]| <= 4
    ensures InBounds(CATALOG[k], SPAWN_X, 0)
    ensures exists r :: Filled(CATALOG[k], r, 0)
  {
    var sh := CATALOG[k];
    assert Rectangular(sh) && Binary(sh) && |sh| <= 2 && |sh[0]| <= 4;
    forall r, c | Filled(sh, r, c)
      ensures InGrid(r, SPAWN_X + c)
    {
      assert |sh[r]| <= 4;
    }
    if sh[0][0] != 0 {
      assert Filled(sh, 0, 0);
    } else {
      assert Filled(sh, 1, 0);
    }
  }
}
