/**
 The evolution engine: neighbour counting on the matrix and the in-place
 generation step through a working buffer, each proved against the pure
 specification in module Life.
 */
module Engine {
  import opened Life
  import opened Matrix

  // ---------------------------------------------------------------------------
  // Neighbour counting

  /**
   Sums the neighbours of (i, j) by walking its 3x3 window row by row,
   skipping the cell itself and every position off the grid.
   */
  method CountNeighbours(m: array<array<int>>, rows: nat, cols: nat, i: int, j: int) returns (count: int)
    requires IsMatrix(m, rows, cols)
    ensures count == Neighbours(Rows(m), rows, cols, i, j)
  {
    ghost var g := Rows(m);
    RowsIsGrid(m, rows, cols);
    count := 0;
    var p := i - 1;
    while p <= i + 1
      invariant i - 1 <= p <= i + 2
      invariant count + WindowSum(g, rows, cols, i, j, p, j - 1) == Neighbours(g, rows, cols, i, j)
    {
      var q := j - 1;
      while q <= j + 1
        invariant j - 1 <= q <= j + 2
        invariant count + WindowSum(g, rows, cols, i, j, p, q) == Neighbours(g, rows, cols, i, j)
      {
        if p == i && q == j {
          q := q + 1;
          continue;
        }
        if 1 <= p <= rows && 0 <= q < cols {
          count := count + m[p][q];
        }
        q := q + 1;
      }
      p := p + 1;
    }
  }

  // ---------------------------------------------------------------------------
  // One generation

  /** Every allocation in `ok` succeeded. */
  predicate AllTrue(ok: seq<bool>) {
    forall k :: 0 <= k < |ok| ==> ok[k]
  }

  /** `dst` and `src` are matrices of the same shape whose rows can be written
      without disturbing each other: the rows of `dst` are pairwise distinct
      and no row of `dst` is a row of `src`. */
  ghost predicate Separate(dst: array<array<int>>, src: array<array<int>>, rows: nat, cols: nat)
    reads dst, src
  {
    && dst.Length == rows + 1 && src.Length == rows + 1
    && (forall k :: 1 <= k <= rows ==> dst[k].Length == cols && src[k].Length == cols)
    && (forall a, b :: 0 <= a < b <= rows ==> dst[a] != dst[b])
    && (forall k, k' :: 0 <= k <= rows && 0 <= k' <= rows ==> dst[k] != src[k'])
  }

  /** Copies every body cell of `src` into `dst`; nothing else changes. */
  method CopyRows(src: array<array<int>>, dst: array<array<int>>, rows: nat, cols: nat)
    requires Separate(dst, src, rows, cols)
    modifies dst[1..]
    ensures forall k :: 1 <= k <= rows ==> dst[k][..] == old(src[k][..])
    ensures forall k :: 0 <= k <= rows ==> src[k][..] == old(src[k][..])
    ensures dst[0][..] == old(dst[0][..])
    ensures unchanged(src, dst)
  {
    var i := 1;
    while i <= rows
      invariant 1 <= i <= rows + 1
      invariant forall k :: 1 <= k < i ==> dst[k][..] == old(src[k][..])
      invariant forall k :: 0 <= k <= rows ==> src[k][..] == old(src[k][..])
      invariant dst[0][..] == old(dst[0][..])
    {
      var j := 0;
      while j < cols
        invariant 0 <= j <= cols
        invariant forall k :: 1 <= k < i ==> dst[k][..] == old(src[k][..])
        invariant forall l :: 0 <= l < j ==> dst[i][l] == old(src[i][l])
        invariant forall k :: 0 <= k <= rows ==> src[k][..] == old(src[k][..])
        invariant dst[0][..] == old(dst[0][..])
      {
        dst[i][j] := src[i][j];
        j := j + 1;
      }
      i := i + 1;
    }
  }

  /**
   Applies the rule to cell (i, j), writing into `row`, which holds the cell's
   current value and is no row of `m`: a live cell with fewer than two or more
   than three live neighbours dies, a dead one with exactly three is born, and
   otherwise the cell is left as it is.
   */
  method UpdateCell(m: array<array<int>>, row: array<int>, rows: nat, cols: nat, i: nat, j: nat)
    requires IsMatrix(m, rows, cols) && 1 <= i <= rows && j < cols
    requires forall k :: 0 <= k < m.Length ==> m[k] != row
    requires row.Length == cols && row[j] == m[i][j]
    modifies row
    ensures IsGrid(Rows(m), rows, cols)
    ensures row[j] == NextGen(Rows(m), rows, cols)[i][j]
    ensures forall l :: 0 <= l < cols && l != j ==> row[l] == old(row[l])
  {
    ghost var g := Rows(m);
    RowsIsGrid(m, rows, cols);
    var live := CountNeighbours(m, rows, cols, i, j);
    ghost var v := Rule(g[i][j], live);
    NextGenCell(g, rows, cols, i, j);
    assert NextGen(g, rows, cols)[i][j] == v;
    if m[i][j] == 1 {
      if live < 2 || live > 3 {
        row[j] := 0;
      }
    } else {
      if live == 3 {
        row[j] := 1;
      }
    }
    assert row[j] == v;
    assert Rows(m) == g;
  }

  /**
   Applies the rule to the cells of body row `i`, writing into `row`, which
   starts as a copy of `m[i]` and is no row of `m`: every count comes from
   `m`, which is never written.
   */
  method ApplyRuleToRow(m: array<array<int>>, buf: array<array<int>>, rows: nat, cols: nat, i: nat)
    requires IsMatrix(m, rows, cols) && Separate(buf, m, rows, cols) && 1 <= i <= rows
    requires buf[i][..] == m[i][..]
    modifies buf[i]
    ensures unchanged(m, buf)
    ensures Rows(m) == old(Rows(m)) && IsGrid(Rows(m), rows, cols)
    ensures buf[i][..] == NextGen(Rows(m), rows, cols)[i]
    ensures forall k :: 0 <= k <= rows && k != i ==> buf[k][..] == old(buf[k][..])
  {
    var row := buf[i];
    ghost var g := Rows(m);
    RowsIsGrid(m, rows, cols);
    ghost var next := NextGen(g, rows, cols)[i];
    var j := 0;
    while j < cols
      invariant 0 <= j <= cols
      invariant Rows(m) == g
      invariant forall l :: 0 <= l < j ==> row[l] == next[l]
      invariant forall l :: j <= l < cols ==> row[l] == m[i][l]
    {
      UpdateCell(m, row, rows, cols, i, j);
      j := j + 1;
    }
  }

  /** Applies the rule to every body row of the buffer, which starts as a copy of `m`. */
  method ApplyRule(m: array<array<int>>, buf: array<array<int>>, rows: nat, cols: nat)
    requires IsMatrix(m, rows, cols) && Separate(buf, m, rows, cols)
    requires forall k :: 1 <= k <= rows ==> buf[k][..] == m[k][..]
    modifies buf[1..]
    ensures unchanged(m, buf)
    ensures Rows(m) == old(Rows(m)) && IsGrid(Rows(m), rows, cols)
    ensures forall k :: 1 <= k <= rows ==> buf[k][..] == NextGen(Rows(m), rows, cols)[k]
  {
    ghost var g := Rows(m);
    RowsIsGrid(m, rows, cols);
    ghost var next := NextGen(g, rows, cols);
    var i := 1;
    while i <= rows
      invariant 1 <= i <= rows + 1
      invariant unchanged(m, buf)
      invariant Rows(m) == g
      invariant forall k :: 1 <= k < i ==> buf[k][..] == next[k]
      invariant forall k :: i <= k <= rows ==> buf[k][..] == m[k][..]
    {
      ApplyRuleToRow(m, buf, rows, cols, i);
      i := i + 1;
    }
  }

  /**
   Allocates the working buffer: one fresh row of `cols` cells per body row,
   in order. Allocating body row k succeeds exactly when `allocOk[k - 1]`
   holds; at the first failure the allocation gives up and reports it.
   */
  method NewBuffer(m: array<array<int>>, rows: nat, cols: nat, allocOk: seq<bool>) returns (ok: bool, buf: array<array<int>>)
    requires IsMatrix(m, rows, cols) && |allocOk| == rows
    ensures ok == AllTrue(allocOk)
    ensures ok ==> Separate(buf, m, rows, cols)
    ensures fresh(buf) && forall k :: 0 <= k <= rows && k < buf.Length ==> fresh(buf[k])
  {
    var unused := new int[0];
    buf := new array<int>[rows + 1](_ => unused);
    var i := 1;
    while i <= rows
      invariant 1 <= i <= rows + 1
      invariant fresh(buf) && buf.Length == rows + 1
      invariant forall k :: 0 <= k < i - 1 ==> allocOk[k]
      invariant forall k :: i <= k <= rows ==> buf[k] == unused
      invariant buf[0] == unused
      invariant forall k :: 1 <= k < i ==> buf[k].Length == cols
      invariant forall k :: 0 <= k <= rows ==> fresh(buf[k])
      invariant forall a, b :: 0 <= a < b < i ==> buf[a] != buf[b]
    {
      if !allocOk[i - 1] {
        return false, buf;
      }
      buf[i] := new int[cols];
      i := i + 1;
    }
    ok := true;
  }

  /**
   One generation in place. A working buffer gets one row per body row; if
   allocating row k fails (`allocOk[k - 1]` is false) the step gives up
   before touching `m`. Otherwise `m` is copied into the buffer, the rule is
   applied there, and the buffer is copied back into `m`.
   */
  method Step(m: array<array<int>>, rows: nat, cols: nat, allocOk: seq<bool>) returns (ok: bool)
    requires IsMatrix(m, rows, cols) && |allocOk| == rows
    modifies m[1..]
    ensures unchanged(m)
    ensures ok == AllTrue(allocOk)
    ensures Rows(m) == if ok then NextGen(old(Rows(m)), rows, cols) else old(Rows(m))
  {
    ghost var g := Rows(m);
    RowsIsGrid(m, rows, cols);
    var buf;
    ok, buf := NewBuffer(m, rows, cols, allocOk);
    if !ok {
      return;
    }
    assert Separate(m, buf, rows, cols);
    CopyRows(m, buf, rows, cols);
    ApplyRule(m, buf, rows, cols);
    assert Rows(m) == g;
    CopyRows(buf, m, rows, cols);
    ghost var r := NextGen(g, rows, cols);
    assert forall k :: 0 <= k <= rows ==> Rows(m)[k] == r[k];
  }

  // ---------------------------------------------------------------------------
  // The simulation loop

  /** How many of the first `n` steps of `runs` find every buffer allocation succeeding. */
  function Successes(runs: seq<seq<bool>>, n: nat): (c: nat)
    requires n <= |runs|
    ensures c <= n
  {
    if n == 0 then 0
    else Successes(runs, n - 1) + (if AllTrue(runs[n - 1]) then 1 else 0)
  }

  /** Every one of the first `n` steps advances the grid exactly when no allocation
      of any of them fails. */
  lemma {:induction false} SuccessesAll(runs: seq<seq<bool>>, n: nat)
    requires n <= |runs|
    ensures Successes(runs, n) == n <==> forall s :: 0 <= s < n ==> AllTrue(runs[s])
  {
    if n > 0 {
      SuccessesAll(runs, n - 1);
    }
  }

  /**
   One pass of the simulation loop: the step sees allocation outcomes `ok`;
   the grid advances one generation and the count goes up exactly when every
   allocation succeeds.
   */
  method Advance(m: array<array<int>>, rows: nat, cols: nat, ok: seq<bool>, done: nat, ghost g: seq<seq<int>>) returns (done': nat)
    requires IsMatrix(m, rows, cols) && |ok| == rows
    requires IsGrid(g, rows, cols) && Rows(m) == Evolve(g, rows, cols, done)
    modifies m[1..]
    ensures unchanged(m) && IsMatrix(m, rows, cols)
    ensures done' == done + (if AllTrue(ok) then 1 else 0)
    ensures Rows(m) == Evolve(g, rows, cols, done')
  {
    ghost var before := Rows(m);
    var stepped := Step(m, rows, cols, ok);
    assert IsMatrix(m, rows, cols);
    done' := done;
    if stepped {
      done' := done + 1;
      assert Rows(m) == NextGen(before, rows, cols);
    } else {
      assert Rows(m) == before;
    }
  }

  /**
   Runs one step per entry of `runs` (step s sees allocation outcomes
   `runs[s]`); a step whose buffer cannot be allocated leaves the grid as it
   is and the loop goes on with the next one.
   */
  method Simulate(m: array<array<int>>, rows: nat, cols: nat, runs: seq<seq<bool>>) returns (done: nat)
    requires IsMatrix(m, rows, cols)
    requires forall s :: 0 <= s < |runs| ==> |runs[s]| == rows
    modifies m[1..]
    ensures unchanged(m) && IsMatrix(m, rows, cols)
    ensures done == Successes(runs, |runs|)
    ensures IsGrid(old(Rows(m)), rows, cols) && Rows(m) == Evolve(old(Rows(m)), rows, cols, done)
  {
    ghost var g := Rows(m);
    RowsIsGrid(m, rows, cols);
    done := 0;
    var s := 0;
    while s < |runs|
      invariant 0 <= s <= |runs|
      invariant unchanged(m) && IsMatrix(m, rows, cols)
      invariant done == Successes(runs, s)
      invariant Rows(m) == Evolve(g, rows, cols, done)
    {
      done := Advance(m, rows, cols, runs[s], done, g);
      s := s + 1;
    }
  }
}
