/** The N x N occupancy lattice as a value: a row-major sequence of rows.
    A cell holds 0 while unvisited and, once the walker has left it, the
    direction code (1 = left, 2 = right, 3 = up, 4 = down) it left by. */
module Lattice {

  datatype Option<T> = None | Some(value: T)

  /** A lattice position: row `i` and column `j`. */
  datatype Pos = Pos(i: int, j: int)

  type Grid = seq<seq<int>>

  /** `g` is an `n` by `n` grid. */
  ghost predicate IsGrid(g: Grid, n: nat) {
    |g| == n && forall a :: 0 <= a < n ==> |g[a]| == n
  }

  predicate InBounds(n: nat, p: Pos) {
    0 <= p.i < n && 0 <= p.j < n
  }

  function Cell(g: Grid, p: Pos): int
    requires 0 <= p.i < |g| && 0 <= p.j < |g[p.i]|
  {
    g[p.i][p.j]
  }

  /** The freshly allocated grid: `n` rows of `n` unvisited cells. */
  function ZeroGrid(n: nat): (g: Grid)
    ensures IsGrid(g, n)
    ensures forall a, b :: 0 <= a < n && 0 <= b < n ==> g[a][b] == 0
  {
    seq(n, _ => seq(n, _ => 0))
  }

  /** The grid with cell `p` set to `v` and every other cell as it was. */
  function Stamp(g: Grid, p: Pos, v: int): (r: Grid)
    requires 0 <= p.i < |g| && 0 <= p.j < |g[p.i]|
    ensures |r| == |g| && forall a :: 0 <= a < |g| ==> |r[a]| == |g[a]|
    ensures forall a, b :: 0 <= a < |g| && 0 <= b < |g[a]| ==>
      r[a][b] == if a == p.i && b == p.j then v else g[a][b]
  {
    g[p.i := g[p.i][p.j := v]]
  }

  /** Number of unvisited cells of a row. */
  function RowZeros(row: seq<int>): nat {
    if row == [] then 0 else (if row[0] == 0 then 1 else 0) + RowZeros(row[1..])
  }

  /** Number of unvisited cells of a grid. */
  function ZeroCount(g: Grid): nat {
    if g == [] then 0 else RowZeros(g[0]) + ZeroCount(g[1..])
  }

  lemma {:induction false} RowZerosAllZero(row: seq<int>)
    requires forall b :: 0 <= b < |row| ==> row[b] == 0
    ensures RowZeros(row) == |row|
  {
    if row != [] {
      RowZerosAllZero(row[1..]);
    }
  }

  lemma {:induction false} ZeroCountAllZero(g: Grid, n: nat)
    requires forall a :: 0 <= a < |g| ==> |g[a]| == n
    requires forall a, b :: 0 <= a < |g| && 0 <= b < n ==> g[a][b] == 0
    ensures ZeroCount(g) == |g| * n
  {
    if g != [] {
      RowZerosAllZero(g[0]);
      ZeroCountAllZero(g[1..], n);
      assert |g| * n == n + (|g| - 1) * n;
    }
  }

  /** A fresh `n` by `n` grid has all `n * n` cells unvisited. */
  lemma ZeroGridCount(n: nat)
    ensures ZeroCount(ZeroGrid(n)) == n * n
  {
    var g := ZeroGrid(n);
    ZeroCountAllZero(g, n);
  }

  lemma {:induction false} RowZerosPositive(row: seq<int>, b: int)
    requires 0 <= b < |row| && row[b] == 0
    ensures RowZeros(row) >= 1
  {
    if b > 0 {
      RowZerosPositive(row[1..], b - 1);
    }
  }

  /** A grid with an unvisited cell has a positive count of unvisited cells. */
  lemma {:induction false} ZeroCountPositive(g: Grid, p: Pos)
    requires 0 <= p.i < |g| && 0 <= p.j < |g[p.i]| && Cell(g, p) == 0
    ensures ZeroCount(g) >= 1
  {
    if p.i == 0 {
      RowZerosPositive(g[0], p.j);
    } else {
      ZeroCountPositive(g[1..], Pos(p.i - 1, p.j));
    }
  }

  lemma {:induction false} RowZerosStamp(row: seq<int>, b: int, v: int)
    requires 0 <= b < |row| && row[b] == 0 && v != 0
    ensures RowZeros(row[b := v]) + 1 == RowZeros(row)
  {
    if b == 0 {
      assert row[b := v][1..] == row[1..];
    } else {
      assert row[b := v][1..] == row[1..][b - 1 := v];
      RowZerosStamp(row[1..], b - 1, v);
    }
  }

  lemma {:induction false} ZeroCountStampRow(g: Grid, a: int, row: seq<int>)
    requires 0 <= a < |g| && RowZeros(row) + 1 == RowZeros(g[a])
    ensures ZeroCount(g[a := row]) + 1 == ZeroCount(g)
  {
    if a == 0 {
      assert g[a := row][1..] == g[1..];
    } else {
      assert g[a := row][1..] == g[1..][a - 1 := row];
      ZeroCountStampRow(g[1..], a - 1, row);
    }
  }

  /** Stamping an unvisited cell with a non-zero code leaves one fewer unvisited cell. */
  lemma StampDecreasesZeroCount(g: Grid, p: Pos, v: int)
    requires 0 <= p.i < |g| && 0 <= p.j < |g[p.i]| && Cell(g, p) == 0 && v != 0
    ensures ZeroCount(Stamp(g, p, v)) + 1 == ZeroCount(g)
  {
    RowZerosStamp(g[p.i], p.j, v);
    ZeroCountStampRow(g, p.i, g[p.i][p.j := v]);
  }
}
