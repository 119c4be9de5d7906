/**
 The program's matrix as it lives in memory: an array of row arrays
 (`int **`). Row 0 is the sentinel row, rows 1..rows are body rows of
 `cols` cells, and no two rows share storage.
 */
module Matrix {
  import opened Life

  /** `m` is a matrix of `rows` body rows of `cols` cells each, rows unaliased. */
  ghost predicate IsMatrix(m: array<array<int>>, rows: nat, cols: nat)
    reads m
  {
    && m.Length == rows + 1
    && (forall i :: 1 <= i <= rows ==> m[i].Length == cols)
    && (forall a, b :: 0 <= a < b < m.Length ==> m[a] != m[b])
  }

  /** The contents of `m`, row by row, as a value. */
  ghost function Rows(m: array<array<int>>): (g: seq<seq<int>>)
    reads m, set i | 0 <= i < m.Length :: m[i]
    ensures |g| == m.Length && forall i :: 0 <= i < m.Length ==> g[i] == m[i][..]
  {
    seq(m.Length, i requires 0 <= i < m.Length reads m, set k | 0 <= k < m.Length :: m[k] => m[i][..])
  }

  /** Read as a value, a matrix has the shape of a grid. */
  lemma RowsIsGrid(m: array<array<int>>, rows: nat, cols: nat)
    requires IsMatrix(m, rows, cols)
    ensures IsGrid(Rows(m), rows, cols)
  {
  }
}
