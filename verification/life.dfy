/** The Life engine: neighbour counting, the four Conway rules and the
    whole-grid step with a permanently dead border. */
module Life {
  import opened Grids

  /** 1 when the cell is alive, 0 otherwise. */
  function Alive(g: Grid, row: int, col: int): nat
    requires InRange(g, row, col)
  {
    if g[row][col] then 1 else 0
  }

  /** Row and column lie strictly inside a square grid of side `n`, so all
      eight neighbours exist. */
  predicate Interior(n: int, row: int, col: int) {
    1 <= row < n - 1 && 1 <= col < n - 1
  }

  /** The cell sits on row 0, row n-1, column 0 or column n-1. */
  predicate OnEdge(n: int, row: int, col: int) {
    row == 0 || col == 0 || row == n - 1 || col == n - 1
  }

  /** Reference count of the Moore neighbourhood: the eight surrounding cells
      listed one by one; the cell itself is not among them. */
  function NeighbourCount(g: Grid, row: int, col: int): (n: nat)
    requires IsSquare(g) && Interior(|g|, row, col)
    ensures n <= 8
  {
      Alive(g, row - 1, col - 1) + Alive(g, row - 1, col) + Alive(g, row - 1, col + 1)
    + Alive(g, row, col - 1)                              + Alive(g, row, col + 1)
    + Alive(g, row + 1, col - 1) + Alive(g, row + 1, col) + Alive(g, row + 1, col + 1)
  }

  /** The rules B3/S23: a live cell survives with two or three live
      neighbours, a dead cell is born with exactly three, every other cell is
      dead in the next generation. */
  predicate Rule(alive: bool, neighbours: nat) {
    neighbours == 3 || (alive && neighbours == 2)
  }

  /** The state of one cell in the next generation: dead on the border,
      decided by the rules inside. */
  predicate NextCell(g: Grid, row: int, col: int)
    requires IsSquare(g) && InRange(g, row, col)
  {
    !OnEdge(|g|, row, col) && Rule(g[row][col], NeighbourCount(g, row, col))
  }

  /** The next generation, as a pure function of the current grid. */
  function Advance(g: Grid): (next: Grid)
    requires IsSquare(g)
    ensures |next| == |g| && IsSquare(next)
    ensures forall r, c :: 0 <= r < |g| && 0 <= c < |g| ==> next[r][c] == NextCell(g, r, c)
  {
    seq(|g|, r requires 0 <= r < |g| => seq(|g|, c requires 0 <= c < |g| => NextCell(g, r, c)))
  }

  // ---------------------------------------------------------------------
  // The scan order of the neighbour-counting loops

  /** Live cells of row `i` at columns col-1 .. jEnd-1, skipping (row, col). */
  ghost function RowScan(g: Grid, row: int, col: int, i: int, jEnd: int): nat
    requires IsSquare(g) && Interior(|g|, row, col)
    requires row - 1 <= i <= row + 1 && col - 1 <= jEnd <= col + 2
    decreases jEnd - col
  {
    if jEnd == col - 1 then 0
    else RowScan(g, row, col, i, jEnd - 1) + (if i != row || jEnd - 1 != col then Alive(g, i, jEnd - 1) else 0)
  }

  /** Live cells of rows row-1 .. iEnd-1 of the 3x3 block, skipping (row, col). */
  ghost function BlockScan(g: Grid, row: int, col: int, iEnd: int): nat
    requires IsSquare(g) && Interior(|g|, row, col)
    requires row - 1 <= iEnd <= row + 2
    decreases iEnd - row
  {
    if iEnd == row - 1 then 0
    else BlockScan(g, row, col, iEnd - 1) + RowScan(g, row, col, iEnd - 1, col + 2)
  }

  /** One full row of the 3x3 block: three cells, or two on the centre row. */
  lemma {:induction false} RowScanFull(g: Grid, row: int, col: int, i: int)
    requires IsSquare(g) && Interior(|g|, row, col)
    requires row - 1 <= i <= row + 1
    ensures RowScan(g, row, col, i, col + 2)
         == Alive(g, i, col - 1) + (if i != row then Alive(g, i, col) else 0) + Alive(g, i, col + 1)
  {
    assert RowScan(g, row, col, i, col - 1) == 0;
    assert RowScan(g, row, col, i, col) == Alive(g, i, col - 1);
    assert RowScan(g, row, col, i, col + 1) == Alive(g, i, col - 1) + (if i != row then Alive(g, i, col) else 0);
  }

  /** Scanning the whole 3x3 block counts exactly the Moore neighbourhood. */
  lemma {:induction false} BlockScanIsNeighbourCount(g: Grid, row: int, col: int)
    requires IsSquare(g) && Interior(|g|, row, col)
    ensures BlockScan(g, row, col, row + 2) == NeighbourCount(g, row, col)
  {
    RowScanFull(g, row, col, row - 1);
    RowScanFull(g, row, col, row);
    RowScanFull(g, row, col, row + 1);
    assert BlockScan(g, row, col, row - 1) == 0;
    assert BlockScan(g, row, col, row) == RowScan(g, row, col, row - 1, col + 2);
    assert BlockScan(g, row, col, row + 1) == BlockScan(g, row, col, row) + RowScan(g, row, col, row, col + 2);
  }

  // ---------------------------------------------------------------------
  // The engine as the program runs it

  /** Counts the live cells around (row, col) with two nested loops over the
      3x3 block, skipping the centre. Every index read lies in [0, |g|)
      because the cell is interior. */
  method CountAliveNeighbours(g: Grid, col: int, row: int) returns (count: nat)
    requires IsSquare(g) && Interior(|g|, row, col)
    ensures count == NeighbourCount(g, row, col)
    ensures count <= 8
  {
    count := 0;
    var i := row - 1;
    while i <= row + 1
      invariant row - 1 <= i <= row + 2
      invariant count == BlockScan(g, row, col, i)
    {
      var j := col - 1;
      while j <= col + 1
        invariant col - 1 <= j <= col + 2
        invariant count == BlockScan(g, row, col, i) + RowScan(g, row, col, i, j)
      {
        if i != row || j != col {
          if g[i][j] {
            count := count + 1;
          }
        }
        j := j + 1;
      }
      i := i + 1;
    }
    BlockScanIsNeighbourCount(g, row, col);
  }

  /** Whether the cell at column `col`, row `row` lives in the next
      generation: border cells are dead, interior cells follow the four rules
      on their neighbour count. The border is tested with `EdgeGuard`, the
      test the program means (see `EdgeGuardAsWritten`). */
  method DetermineLiveCell(g: Grid, col: int, row: int) returns (lives: bool)
    requires IsSquare(g) && InRange(g, row, col)
    ensures OnEdge(|g|, row, col) ==> !lives
    ensures !OnEdge(|g|, row, col) ==> (lives <==> Rule(g[row][col], NeighbourCount(g, row, col)))
  {
    if EdgeGuard(|g|, col, row) {
      return false;
    }
    var neighbours := CountAliveNeighbours(g, col, row);
    var isAlive := g[row][col];
    if isAlive && (neighbours < 2 || neighbours > 3) {
      lives := false;
    } else if isAlive && (neighbours == 2 || neighbours == 3) {
      lives := true;
    } else if !isAlive && neighbours == 3 {
      lives := true;
    } else {
      lives := false;
    }
  }

  /** Rebuilds the whole grid row by row: every border cell is dead, every
      interior cell is decided by the rules. */
  method DetermineNextGeneration(g: Grid) returns (next: Grid)
    requires IsSquare(g)
    ensures |next| == |g| && IsSquare(next)
    ensures forall r, c :: 0 <= r < |g| && 0 <= c < |g| && OnEdge(|g|, r, c) ==> !next[r][c]
    ensures forall r, c :: Interior(|g|, r, c) ==> (next[r][c] <==> Rule(g[r][c], NeighbourCount(g, r, c)))
    ensures next == Advance(g)
  {
    next := [];
    var rowIndex := 0;
    while rowIndex < |g|
      invariant 0 <= rowIndex <= |g|
      invariant |next| == rowIndex
      invariant forall r :: 0 <= r < rowIndex ==> |next[r]| == |g|
      invariant forall r, c :: 0 <= r < rowIndex && 0 <= c < |g| ==> next[r][c] == NextCell(g, r, c)
    {
      var newRow: seq<bool> := [];
      var colIndex := 0;
      while colIndex < |g[rowIndex]|
        invariant 0 <= colIndex <= |g|
        invariant |newRow| == colIndex
        invariant forall c :: 0 <= c < colIndex ==> newRow[c] == NextCell(g, rowIndex, c)
      {
        var tileState := false;
        if rowIndex != 0 && colIndex != 0 && rowIndex != |g| - 1 && colIndex != |g[rowIndex]| - 1 {
          tileState := DetermineLiveCell(g, colIndex, rowIndex);
        }
        newRow := newRow + [tileState];
        colIndex := colIndex + 1;
      }
      next := next + [newRow];
      rowIndex := rowIndex + 1;
    }
    forall r | 0 <= r < |g|
      ensures next[r] == Advance(g)[r]
    {
    }
  }

  // ---------------------------------------------------------------------
  // Properties of the engine

  /** An all-dead grid stays all dead. */
  lemma AllDeadIsFixedPoint(n: nat)
    ensures Advance(InitializeConwayData(n)) == InitializeConwayData(n)
  {
    var g := InitializeConwayData(n);
    var next := Advance(g);
    forall r, c | 0 <= r < n && 0 <= c < n
      ensures next[r][c] == g[r][c]
    {
      if Interior(n, r, c) {
        assert NeighbourCount(g, r, c) == 0;
      }
    }
    forall r | 0 <= r < n
      ensures next[r] == g[r]
    {
    }
  }

  /** `k` successive generations starting from `g`. */
  function Generations(g: Grid, k: nat): (h: Grid)
    requires IsSquare(g)
    ensures |h| == |g| && IsSquare(h)
    decreases k
  {
    if k == 0 then g else Generations(Advance(g), k - 1)
  }

  /** However many generations pass, an empty grid of side `n` stays empty. */
  lemma {:induction false} AllDeadStaysDead(n: nat, k: nat)
    ensures Generations(InitializeConwayData(n), k) == InitializeConwayData(n)
  {
    if k > 0 {
      AllDeadIsFixedPoint(n);
      AllDeadStaysDead(n, k - 1);
    }
  }

  // ---------------------------------------------------------------------
  // The border guard inside the cell decision

  /** The border test of the cell decision as the program writes it: its
      second comparison tests the column index against the row count where
      the row index was meant. */
  predicate EdgeGuardAsWritten(n: int, col: int, row: int) {
    (col == 0 || col == n - 1) || (row == 0 || col == n - 1)
  }

  /** The as-written test lets a bottom-row cell through: on a grid of side
      `n` its lower neighbours would be read from row `n`, which does not
      exist. The generation step never asks about such a cell. */
  lemma EdgeGuardAsWrittenMissesBottomRow(n: int, col: int)
    requires 1 <= col < n - 1
    ensures !EdgeGuardAsWritten(n, col, n - 1)
    ensures OnEdge(n, n - 1, col) && !Interior(n, n - 1, col)
  {
  }

  /** The test the program means, as `DetermineLiveCell` performs it: a cell
      fails it exactly when it is interior. */
  predicate EdgeGuard(n: int, col: int, row: int) {
    (col == 0 || col == n - 1) || (row == 0 || row == n - 1)
  }

  lemma EdgeGuardIsBorder(n: int, col: int, row: int)
    requires 0 <= row < n && 0 <= col < n
    ensures EdgeGuard(n, col, row) <==> OnEdge(n, row, col)
    ensures !EdgeGuard(n, col, row) <==> Interior(n, row, col)
  {
  }

  // ---------------------------------------------------------------------
  // A worked generation

  /** A glider on a 5x5 grid: cells (1,2), (2,3), (3,1), (3,2), (3,3). */
  function GliderSeed(): (g: Grid)
    ensures |g| == 5 && IsSquare(g)
  {
    [ [false, false, false, false, false],
      [false, false, true,  false, false],
      [false, false, false, true,  false],
      [false, true,  true,  true,  false],
      [false, false, false, false, false] ]
  }

  /** The glider one generation later, as worked out by hand from the rules
      and the dead border. */
  function GliderNext(): (g: Grid)
    ensures |g| == 5 && IsSquare(g)
  {
    [ [false, false, false, false, false],
      [false, false, false, false, false],
      [false, true,  false, true,  false],
      [false, false, true,  true,  false],
      [false, false, false, false, false] ]
  }

  /** The neighbour counts of the nine interior cells of the glider seed. */
  lemma GliderCounts(r: int, c: int)
    requires Interior(5, r, c)
    ensures NeighbourCount(GliderSeed(), r, c) ==
      [[1, 1, 2], [3, 5, 3], [1, 3, 2]][r - 1][c - 1]
  {
  }

  /** One generation later the glider has moved down; its new bottom cell
      (4,2) would lie on the dead border and is not born. */
  lemma GliderStep()
    ensures Advance(GliderSeed()) == GliderNext()
  {
    var g := GliderSeed();
    var next := Advance(g);
    var e := GliderNext();
    forall r, c | 0 <= r < 5 && 0 <= c < 5
      ensures next[r][c] == e[r][c]
    {
      if Interior(5, r, c) {
        GliderCounts(r, c);
      }
    }
    forall r | 0 <= r < 5
      ensures next[r] == e[r]
    {
    }
  }
}
