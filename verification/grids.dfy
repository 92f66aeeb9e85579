/** The Game of Life grid: a square array of boolean cells, indexed first by
    row (the clicked y) and then by column (the clicked x). */
module Grids {

  /** One grid; a cell is `true` when it is alive. */
  type Grid = seq<seq<bool>>

  /** Every row has exactly as many cells as there are rows. */
  predicate IsSquare(g: Grid) {
    forall r :: 0 <= r < |g| ==> |g[r]| == |g|
  }

  /** True when (row, col) names a cell of `g`. */
  predicate InRange(g: Grid, row: int, col: int) {
    0 <= row < |g| && 0 <= col < |g[row]|
  }

  /** No cell of `g` is alive. */
  predicate AllDead(g: Grid) {
    forall r, c :: 0 <= r < |g| && 0 <= c < |g[r]| ==> !g[r][c]
  }

  /** The freshly initialised data array: `n` rows of `n` dead cells. */
  function InitializeConwayData(n: nat): (g: Grid)
    ensures |g| == n && IsSquare(g)
    ensures AllDead(g)
  {
    seq(n, _ => seq(n, _ => false))
  }

  /** A deep copy of `original`, built row by row and cell by cell; it has the
      shape and the contents of the original. */
  method CopyArray(original: Grid) returns (copy: Grid)
    ensures |copy| == |original|
    ensures forall r :: 0 <= r < |original| ==> |copy[r]| == |original[r]|
    ensures forall r, c :: 0 <= r < |original| && 0 <= c < |original[r]| ==> copy[r][c] == original[r][c]
  {
    copy := [];
    var r := 0;
    while r < |original|
      invariant 0 <= r <= |original|
      invariant |copy| == r
      invariant forall i :: 0 <= i < r ==> copy[i] == original[i]
    {
      var row := original[r];
      var newRow := [];
      var c := 0;
      while c < |row|
        invariant 0 <= c <= |row|
        invariant newRow == row[..c]
      {
        newRow := newRow + [row[c]];
        c := c + 1;
      }
      copy := copy + [newRow];
      r := r + 1;
    }
  }

  /** A click on a cell: ignored while the simulation runs, otherwise it flips
      exactly that cell. The indices must name a cell only when the flip
      happens, because a running simulation returns before reading them. */
  function FlipTile(g: Grid, running: bool, row: int, col: int): (r: Grid)
    requires !running ==> InRange(g, row, col)
    ensures running ==> r == g
    ensures |r| == |g| && forall i :: 0 <= i < |g| ==> |r[i]| == |g[i]|
    ensures IsSquare(g) ==> IsSquare(r)
    ensures !running ==> r[row][col] == !g[row][col]
    ensures forall i, j :: 0 <= i < |g| && 0 <= j < |g[i]| && (i != row || j != col) ==> r[i][j] == g[i][j]
  {
    if running then g
    else g[row := g[row][col := !g[row][col]]]
  }

  /** Flipping the same cell twice restores the grid. */
  lemma FlipTwiceRestores(g: Grid, row: int, col: int)
    requires InRange(g, row, col)
    ensures FlipTile(FlipTile(g, false, row, col), false, row, col) == g
  {
    var once := FlipTile(g, false, row, col);
    var twice := FlipTile(once, false, row, col);
    assert twice[row] == g[row];
  }
}
