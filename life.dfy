/**
 Conway's Game of Life on a finite, non-wrapping grid: the pure specification.

 A grid is laid out as the program lays out its matrix: row 0 is a sentinel
 that the loader fills with the dimensions, and rows 1..rows hold `cols`
 cells each (columns 0..cols-1). A cell is an `int`: 1 is alive, and the
 rule treats every other value as dead without rewriting it.
 */
module Life {

  /** `g` has the shape of a `rows` x `cols` matrix with its sentinel row. */
  predicate IsGrid(g: seq<seq<int>>, rows: nat, cols: nat) {
    |g| == rows + 1 && forall i :: 1 <= i <= rows ==> |g[i]| == cols
  }

  /** Position (i, j) is a cell of the grid (rows are 1-based, columns 0-based). */
  predicate InBounds(rows: nat, cols: nat, i: int, j: int) {
    1 <= i <= rows && 0 <= j < cols
  }

  /** Every cell holds 0 or 1. */
  ghost predicate Binary(g: seq<seq<int>>, rows: nat, cols: nat)
    requires IsGrid(g, rows, cols)
  {
    forall i, j :: InBounds(rows, cols, i, j) ==> g[i][j] == 0 || g[i][j] == 1
  }

  /** Every cell holds 0. */
  ghost predicate AllDead(g: seq<seq<int>>, rows: nat, cols: nat)
    requires IsGrid(g, rows, cols)
  {
    forall i, j :: InBounds(rows, cols, i, j) ==> g[i][j] == 0
  }

  /** (p, q) is one of the eight Moore neighbours of (i, j). */
  predicate Adjacent(i: int, j: int, p: int, q: int) {
    -1 <= p - i <= 1 && -1 <= q - j <= 1 && (p != i || q != j)
  }

  /** The value a neighbour contributes: its cell, or 0 off the grid. */
  function At(g: seq<seq<int>>, rows: nat, cols: nat, i: int, j: int): int
    requires IsGrid(g, rows, cols)
  {
    if InBounds(rows, cols, i, j) then g[i][j] else 0
  }

  /**
   Sum over the 3x3 window centred on (i, j), from window position (p, q)
   onward, row by row (rows i-1..i+1, in each row columns j-1..j+1). The
   centre (i, j) itself is skipped.
   */
  function WindowSum(g: seq<seq<int>>, rows: nat, cols: nat, i: int, j: int, p: int, q: int): int
    requires IsGrid(g, rows, cols)
    decreases i + 2 - p, j + 2 - q
  {
    if p > i + 1 then 0
    else if q > j + 1 then WindowSum(g, rows, cols, i, j, p + 1, j - 1)
    else (if p == i && q == j then 0 else At(g, rows, cols, p, q)) + WindowSum(g, rows, cols, i, j, p, q + 1)
  }

  /**
   The neighbour count of (i, j): the sum of the values of its in-board Moore
   neighbours (on a 0/1 grid, the number of live ones); there is no
   wrap-around.
   */
  function Neighbours(g: seq<seq<int>>, rows: nat, cols: nat, i: int, j: int): (n: int)
    requires IsGrid(g, rows, cols)
    ensures n ==
      At(g, rows, cols, i - 1, j - 1) + At(g, rows, cols, i - 1, j) + At(g, rows, cols, i - 1, j + 1) +
      At(g, rows, cols, i, j - 1) + At(g, rows, cols, i, j + 1) +
      At(g, rows, cols, i + 1, j - 1) + At(g, rows, cols, i + 1, j) + At(g, rows, cols, i + 1, j + 1)
  {
    WindowIsMooreSum(g, rows, cols, i, j);
    WindowSum(g, rows, cols, i, j, i - 1, j - 1)
  }

  /**
   The new value of a cell holding `cell` whose neighbour count is `n`. The buffer
   starts as a copy of the old grid, so a cell that no branch writes keeps its
   old value. On 0/1 cells this is the B3/S23 rule.
   */
  function Rule(cell: int, n: int): (r: int)
    ensures cell == 0 || cell == 1 ==> (r == 0 || r == 1) && (r == 1 <==> n == 3 || (cell == 1 && n == 2))
    ensures cell != 0 && cell != 1 ==> r == (if n == 3 then 1 else cell)
  {
    if cell == 1 then
      (if n < 2 || n > 3 then 0 else cell)
    else
      (if n == 3 then 1 else cell)
  }

  /** Cells 0..n-1 of body row `i` of the next generation, each the rule applied
      to the OLD grid. */
  function NextCells(g: seq<seq<int>>, rows: nat, cols: nat, i: int, n: nat): (r: seq<int>)
    requires IsGrid(g, rows, cols) && 1 <= i <= rows && n <= cols
    ensures |r| == n
    decreases n
  {
    if n == 0 then []
    else NextCells(g, rows, cols, i, n - 1) + [Rule(g[i][n - 1], Neighbours(g, rows, cols, i, n - 1))]
  }

  /** The sentinel row followed by body rows 1..n of the next generation. */
  function NextRows(g: seq<seq<int>>, rows: nat, cols: nat, n: nat): (r: seq<seq<int>>)
    requires IsGrid(g, rows, cols) && n <= rows
    ensures |r| == n + 1 && r[0] == g[0] && forall i :: 1 <= i <= n ==> |r[i]| == cols
    decreases n
  {
    if n == 0 then [g[0]]
    else NextRows(g, rows, cols, n - 1) + [NextCells(g, rows, cols, n, cols)]
  }

  /** The next generation: the sentinel is kept and every body cell gets the rule
      applied to the OLD grid (lemma NextGenCells). */
  function NextGen(g: seq<seq<int>>, rows: nat, cols: nat): (r: seq<seq<int>>)
    requires IsGrid(g, rows, cols)
    ensures IsGrid(r, rows, cols) && r[0] == g[0]
  {
    NextRows(g, rows, cols, rows)
  }

  /** `n` generations after `g`. */
  function Evolve(g: seq<seq<int>>, rows: nat, cols: nat, n: nat): (r: seq<seq<int>>)
    requires IsGrid(g, rows, cols)
    ensures IsGrid(r, rows, cols) && r[0] == g[0]
    decreases n
  {
    if n == 0 then g else NextGen(Evolve(g, rows, cols, n - 1), rows, cols)
  }

  /** Cell j of a partial next row is the rule applied at (i, j). */
  lemma {:induction false} NextCellsAt(g: seq<seq<int>>, rows: nat, cols: nat, i: int, n: nat, j: int)
    requires IsGrid(g, rows, cols) && 1 <= i <= rows && n <= cols && 0 <= j < n
    ensures NextCells(g, rows, cols, i, n)[j] == Rule(g[i][j], Neighbours(g, rows, cols, i, j))
    decreases n
  {
    if j < n - 1 {
      NextCellsAt(g, rows, cols, i, n - 1, j);
    }
  }

  /** Row i of a partial next generation is the full next row i. */
  lemma {:induction false} NextRowsAt(g: seq<seq<int>>, rows: nat, cols: nat, n: nat, i: int)
    requires IsGrid(g, rows, cols) && 1 <= i <= n <= rows
    ensures NextRows(g, rows, cols, n)[i] == NextCells(g, rows, cols, i, cols)
    decreases n
  {
    if i < n {
      NextRowsAt(g, rows, cols, n - 1, i);
    }
  }

  /** Every body cell of the next generation is the rule applied to the cell and
      its neighbour count in the OLD grid. */
  lemma NextGenCells(g: seq<seq<int>>, rows: nat, cols: nat)
    requires IsGrid(g, rows, cols)
    ensures forall i, j :: InBounds(rows, cols, i, j) ==>
      NextGen(g, rows, cols)[i][j] == Rule(g[i][j], Neighbours(g, rows, cols, i, j))
  {
    forall i, j | InBounds(rows, cols, i, j)
      ensures NextGen(g, rows, cols)[i][j] == Rule(g[i][j], Neighbours(g, rows, cols, i, j))
    {
      NextGenCell(g, rows, cols, i, j);
    }
  }

  /** Body cell (i, j) of the next generation is the rule applied to the cell and
      its neighbour count in the OLD grid. */
  lemma NextGenCell(g: seq<seq<int>>, rows: nat, cols: nat, i: int, j: int)
    requires IsGrid(g, rows, cols) && InBounds(rows, cols, i, j)
    ensures NextGen(g, rows, cols)[i][j] == Rule(g[i][j], Neighbours(g, rows, cols, i, j))
  {
    NextRowsAt(g, rows, cols, rows, i);
    NextCellsAt(g, rows, cols, i, cols, j);
  }

  // ---------------------------------------------------------------------------
  // Neighbour counting

  /** Walking the whole window sums the eight Moore neighbours, each taken as 0 off the grid. */
  lemma {:induction false} WindowIsMooreSum(g: seq<seq<int>>, rows: nat, cols: nat, i: int, j: int)
    requires IsGrid(g, rows, cols)
    ensures WindowSum(g, rows, cols, i, j, i - 1, j - 1) ==
      At(g, rows, cols, i - 1, j - 1) + At(g, rows, cols, i - 1, j) + At(g, rows, cols, i - 1, j + 1) +
      At(g, rows, cols, i, j - 1) + At(g, rows, cols, i, j + 1) +
      At(g, rows, cols, i + 1, j - 1) + At(g, rows, cols, i + 1, j) + At(g, rows, cols, i + 1, j + 1)
  {
    assert WindowSum(g, rows, cols, i, j, i + 2, j - 1) == 0;
    assert WindowSum(g, rows, cols, i, j, i + 1, j + 2) == WindowSum(g, rows, cols, i, j, i + 2, j - 1);
    assert WindowSum(g, rows, cols, i, j, i + 1, j + 1) == At(g, rows, cols, i + 1, j + 1) + WindowSum(g, rows, cols, i, j, i + 1, j + 2);
    assert WindowSum(g, rows, cols, i, j, i + 1, j) == At(g, rows, cols, i + 1, j) + WindowSum(g, rows, cols, i, j, i + 1, j + 1);
    assert WindowSum(g, rows, cols, i, j, i + 1, j - 1) == At(g, rows, cols, i + 1, j - 1) + WindowSum(g, rows, cols, i, j, i + 1, j);
    assert WindowSum(g, rows, cols, i, j, i, j + 2) == WindowSum(g, rows, cols, i, j, i + 1, j - 1);
    assert WindowSum(g, rows, cols, i, j, i, j + 1) == At(g, rows, cols, i, j + 1) + WindowSum(g, rows, cols, i, j, i, j + 2);
    assert WindowSum(g, rows, cols, i, j, i, j) == WindowSum(g, rows, cols, i, j, i, j + 1);
    assert WindowSum(g, rows, cols, i, j, i, j - 1) == At(g, rows, cols, i, j - 1) + WindowSum(g, rows, cols, i, j, i, j);
    assert WindowSum(g, rows, cols, i, j, i - 1, j + 2) == WindowSum(g, rows, cols, i, j, i, j - 1);
    assert WindowSum(g, rows, cols, i, j, i - 1, j + 1) == At(g, rows, cols, i - 1, j + 1) + WindowSum(g, rows, cols, i, j, i - 1, j + 2);
    assert WindowSum(g, rows, cols, i, j, i - 1, j) == At(g, rows, cols, i - 1, j) + WindowSum(g, rows, cols, i, j, i - 1, j + 1);
    assert WindowSum(g, rows, cols, i, j, i - 1, j - 1) == At(g, rows, cols, i - 1, j - 1) + WindowSum(g, rows, cols, i, j, i - 1, j);
  }

  /** The count reads only the in-grid Moore neighbours: not the cell itself,
      not the sentinel row, nothing off the grid. */
  lemma NeighboursScope(g: seq<seq<int>>, h: seq<seq<int>>, rows: nat, cols: nat, i: int, j: int)
    requires IsGrid(g, rows, cols) && IsGrid(h, rows, cols)
    requires forall p, q :: InBounds(rows, cols, p, q) && Adjacent(i, j, p, q) ==> g[p][q] == h[p][q]
    ensures Neighbours(g, rows, cols, i, j) == Neighbours(h, rows, cols, i, j)
  {
  }

  /** On a 0/1 grid the count lies in 0..8. */
  lemma NeighboursRange(g: seq<seq<int>>, rows: nat, cols: nat, i: int, j: int)
    requires IsGrid(g, rows, cols) && Binary(g, rows, cols)
    ensures 0 <= Neighbours(g, rows, cols, i, j) <= 8
  {
  }

  /** At a corner of a 0/1 grid only three neighbours are on the grid. */
  lemma CornerNeighboursAtMostThree(g: seq<seq<int>>, rows: nat, cols: nat, i: int, j: int)
    requires IsGrid(g, rows, cols) && Binary(g, rows, cols)
    requires InBounds(rows, cols, i, j)
    requires (i == 1 || i == rows) && (j == 0 || j == cols - 1)
    ensures 0 <= Neighbours(g, rows, cols, i, j) <= 3
  {
  }

  // ---------------------------------------------------------------------------
  // One generation

  /** A cell of the next generation depends only on its 3x3 window in the old grid. */
  lemma NextGenLocal(g: seq<seq<int>>, h: seq<seq<int>>, rows: nat, cols: nat, i: int, j: int)
    requires IsGrid(g, rows, cols) && IsGrid(h, rows, cols) && InBounds(rows, cols, i, j)
    requires forall p, q :: InBounds(rows, cols, p, q) && -1 <= p - i <= 1 && -1 <= q - j <= 1 ==> g[p][q] == h[p][q]
    ensures NextGen(g, rows, cols)[i][j] == NextGen(h, rows, cols)[i][j]
  {
    NextGenCells(g, rows, cols);
    NextGenCells(h, rows, cols);
    NeighboursScope(g, h, rows, cols, i, j);
  }

  /** A 0/1 grid stays a 0/1 grid. */
  lemma NextGenBinary(g: seq<seq<int>>, rows: nat, cols: nat)
    requires IsGrid(g, rows, cols) && Binary(g, rows, cols)
    ensures Binary(NextGen(g, rows, cols), rows, cols)
  {
    NextGenCells(g, rows, cols);
  }

  /** The all-dead grid is a fixed point. */
  lemma DeadGridIsFixed(g: seq<seq<int>>, rows: nat, cols: nat)
    requires IsGrid(g, rows, cols) && AllDead(g, rows, cols)
    ensures NextGen(g, rows, cols) == g
  {
    var r := NextGen(g, rows, cols);
    NextGenCells(g, rows, cols);
    forall i | 1 <= i <= rows
      ensures r[i] == g[i]
    {
      forall j | 0 <= j < cols
        ensures r[i][j] == g[i][j]
      {
      }
    }
  }

  /** On a grid whose only live cell is (i, j), a cell's count is 1 when it
      is adjacent to (i, j) and 0 otherwise. */
  lemma NeighboursOfLoneCell(g: seq<seq<int>>, rows: nat, cols: nat, i: int, j: int, p: int, q: int)
    requires IsGrid(g, rows, cols) && InBounds(rows, cols, i, j) && g[i][j] == 1
    requires forall p', q' :: InBounds(rows, cols, p', q') && (p' != i || q' != j) ==> g[p'][q'] == 0
    ensures Neighbours(g, rows, cols, p, q) == if Adjacent(p, q, i, j) then 1 else 0
  {
  }

  /** A single live cell, wherever it is, dies, and nothing is born. */
  lemma LoneCellDies(g: seq<seq<int>>, rows: nat, cols: nat, i: int, j: int)
    requires IsGrid(g, rows, cols) && InBounds(rows, cols, i, j) && g[i][j] == 1
    requires forall p, q :: InBounds(rows, cols, p, q) && (p != i || q != j) ==> g[p][q] == 0
    ensures AllDead(NextGen(g, rows, cols), rows, cols)
  {
    var r := NextGen(g, rows, cols);
    NextGenCells(g, rows, cols);
    forall p, q | InBounds(rows, cols, p, q)
      ensures r[p][q] == 0
    {
      NeighboursOfLoneCell(g, rows, cols, i, j, p, q);
    }
  }

  /** `h` is the next generation of `g` when it agrees with the rule cell by cell. */
  lemma NextGenIs(g: seq<seq<int>>, h: seq<seq<int>>, rows: nat, cols: nat)
    requires IsGrid(g, rows, cols) && IsGrid(h, rows, cols) && h[0] == g[0]
    requires forall i, j :: InBounds(rows, cols, i, j) ==> h[i][j] == Rule(g[i][j], Neighbours(g, rows, cols, i, j))
    ensures NextGen(g, rows, cols) == h
  {
    var r := NextGen(g, rows, cols);
    NextGenCells(g, rows, cols);
    forall i | 1 <= i <= rows
      ensures r[i] == h[i]
    {
      assert forall j :: 0 <= j < cols ==> r[i][j] == h[i][j];
    }
  }

  // ---------------------------------------------------------------------------
  // Known patterns

  /** Two grids with the same sentinel and the same body cells are the same grid. */
  lemma SameGrid(g: seq<seq<int>>, h: seq<seq<int>>, rows: nat, cols: nat)
    requires IsGrid(g, rows, cols) && IsGrid(h, rows, cols) && g[0] == h[0]
    requires forall i, j :: InBounds(rows, cols, i, j) ==> g[i][j] == h[i][j]
    ensures g == h
  {
    forall i | 1 <= i <= rows
      ensures g[i] == h[i]
    {
      assert forall j :: 0 <= j < cols ==> g[i][j] == h[i][j];
    }
  }

  /** (i, j) is a cell of the 2x2 block whose top-left cell is (a, b). */
  predicate InBlock(a: int, b: int, i: int, j: int) {
    a <= i <= a + 1 && b <= j <= b + 1
  }

  /** (i, j) is a cell of the horizontal blinker centred on (a, b). */
  predicate InBlinkerH(a: int, b: int, i: int, j: int) {
    i == a && b - 1 <= j <= b + 1
  }

  /** (i, j) is a cell of the vertical blinker centred on (a, b). */
  predicate InBlinkerV(a: int, b: int, i: int, j: int) {
    a - 1 <= i <= a + 1 && j == b
  }

  /** Both phases of a blinker centred on (a, b) lie on the board. */
  predicate BlinkerFits(rows: nat, cols: nat, a: int, b: int) {
    2 <= a <= rows - 1 && 1 <= b <= cols - 2
  }

  /** The only live cells of `g` are those of the block with top-left cell (a, b), which lies on the board. */
  ghost predicate BlockAt(g: seq<seq<int>>, rows: nat, cols: nat, a: int, b: int) {
    IsGrid(g, rows, cols) && 1 <= a < rows && 0 <= b < cols - 1 &&
    forall i, j :: InBounds(rows, cols, i, j) ==> g[i][j] == if InBlock(a, b, i, j) then 1 else 0
  }

  /** The only live cells of `g` are those of the horizontal blinker centred on (a, b). */
  ghost predicate BlinkerHAt(g: seq<seq<int>>, rows: nat, cols: nat, a: int, b: int) {
    IsGrid(g, rows, cols) && BlinkerFits(rows, cols, a, b) &&
    forall i, j :: InBounds(rows, cols, i, j) ==> g[i][j] == if InBlinkerH(a, b, i, j) then 1 else 0
  }

  /** The only live cells of `g` are those of the vertical blinker centred on (a, b). */
  ghost predicate BlinkerVAt(g: seq<seq<int>>, rows: nat, cols: nat, a: int, b: int) {
    IsGrid(g, rows, cols) && BlinkerFits(rows, cols, a, b) &&
    forall i, j :: InBounds(rows, cols, i, j) ==> g[i][j] == if InBlinkerV(a, b, i, j) then 1 else 0
  }

  /** A block on a 4x4 board. */
  function Block(): (g: seq<seq<int>>)
    ensures BlockAt(g, 4, 4, 2, 1)
  {
    [[4, 4],
     [0, 0, 0, 0],
     [0, 1, 1, 0],
     [0, 1, 1, 0],
     [0, 0, 0, 0]]
  }

  /** A horizontal blinker on a 5x5 board. */
  function BlinkerH(): (g: seq<seq<int>>)
    ensures BlinkerHAt(g, 5, 5, 3, 2)
  {
    [[5, 5],
     [0, 0, 0, 0, 0],
     [0, 0, 0, 0, 0],
     [0, 1, 1, 1, 0],
     [0, 0, 0, 0, 0],
     [0, 0, 0, 0, 0]]
  }

  /** The block is a still life wherever it lies on a board of any size, even against an edge. */
  lemma BlockIsStill(g: seq<seq<int>>, rows: nat, cols: nat, a: int, b: int)
    requires BlockAt(g, rows, cols, a, b)
    ensures NextGen(g, rows, cols) == g
  {
    forall i, j | InBounds(rows, cols, i, j)
      ensures g[i][j] == Rule(g[i][j], Neighbours(g, rows, cols, i, j))
    {
    }
    NextGenIs(g, g, rows, cols);
  }

  /** Around a horizontal blinker, the rule gives the vertical blinker's cell. */
  lemma BlinkerHCell(h: seq<seq<int>>, rows: nat, cols: nat, a: int, b: int, i: int, j: int)
    requires BlinkerHAt(h, rows, cols, a, b) && InBounds(rows, cols, i, j)
    ensures Rule(h[i][j], Neighbours(h, rows, cols, i, j)) == if InBlinkerV(a, b, i, j) then 1 else 0
  {
    assert forall p, q :: At(h, rows, cols, p, q) == if InBlinkerH(a, b, p, q) then 1 else 0;
  }

  /** Around a vertical blinker, the rule gives the horizontal blinker's cell. */
  lemma BlinkerVCell(v: seq<seq<int>>, rows: nat, cols: nat, a: int, b: int, i: int, j: int)
    requires BlinkerVAt(v, rows, cols, a, b) && InBounds(rows, cols, i, j)
    ensures Rule(v[i][j], Neighbours(v, rows, cols, i, j)) == if InBlinkerH(a, b, i, j) then 1 else 0
  {
    assert forall p, q :: At(v, rows, cols, p, q) == if InBlinkerV(a, b, p, q) then 1 else 0;
  }

  /** A horizontal blinker turns vertical about the same centre... */
  lemma BlinkerTurns(h: seq<seq<int>>, rows: nat, cols: nat, a: int, b: int)
    requires BlinkerHAt(h, rows, cols, a, b)
    ensures BlinkerVAt(NextGen(h, rows, cols), rows, cols, a, b)
  {
    var r := NextGen(h, rows, cols);
    NextGenCells(h, rows, cols);
    forall i, j | InBounds(rows, cols, i, j)
      ensures r[i][j] == if InBlinkerV(a, b, i, j) then 1 else 0
    {
      BlinkerHCell(h, rows, cols, a, b, i, j);
    }
  }

  /** ...and a vertical one turns horizontal again. */
  lemma BlinkerTurnsBack(v: seq<seq<int>>, rows: nat, cols: nat, a: int, b: int)
    requires BlinkerVAt(v, rows, cols, a, b)
    ensures BlinkerHAt(NextGen(v, rows, cols), rows, cols, a, b)
  {
    var r := NextGen(v, rows, cols);
    NextGenCells(v, rows, cols);
    forall i, j | InBounds(rows, cols, i, j)
      ensures r[i][j] == if InBlinkerH(a, b, i, j) then 1 else 0
    {
      BlinkerVCell(v, rows, cols, a, b, i, j);
    }
  }

  /** A blinker has period exactly two: it changes after one generation and is back after two. */
  lemma BlinkerHasPeriodTwo(h: seq<seq<int>>, rows: nat, cols: nat, a: int, b: int)
    requires BlinkerHAt(h, rows, cols, a, b)
    ensures Evolve(h, rows, cols, 1) != h
    ensures Evolve(h, rows, cols, 2) == h
  {
    BlinkerTurns(h, rows, cols, a, b);
    var v := Evolve(h, rows, cols, 1);
    assert v == NextGen(h, rows, cols);
    assert InBounds(rows, cols, a - 1, b) && v[a - 1][b] == 1 && h[a - 1][b] == 0;
    BlinkerTurnsBack(v, rows, cols, a, b);
    var w := Evolve(h, rows, cols, 2);
    assert w == NextGen(v, rows, cols);
    SameGrid(w, h, rows, cols);
  }
}
