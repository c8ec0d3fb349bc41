/** Temperature fields as values.

    A grid is a non-empty rectangle of rows of temperatures, indexed
    `g[i][j]` with `i` the row (0 <= i < height) and `j` the column
    (0 <= j < width), the same order as `field[i][j]` in main.c.
    The C program stores a field in a `float [NODES_Y][NODES_X]` buffer;
    here a buffer is an `array2<real>` and `Cells` reads it as a grid. */
module Grids {

  type Grid = seq<seq<real>>

  /** At least one row and one column, and every row as wide as the first. */
  predicate IsGrid(g: Grid) {
    |g| >= 1 && |g[0]| >= 1 && forall i :: 0 <= i < |g| ==> |g[i]| == |g[0]|
  }

  function Height(g: Grid): nat {
    |g|
  }

  function Width(g: Grid): nat {
    if |g| == 0 then 0 else |g[0]|
  }

  /** Every cell is at least zero. */
  predicate Nonnegative(g: Grid) {
    forall i, j :: 0 <= i < |g| && 0 <= j < |g[i]| ==> g[i][j] >= 0.0
  }

  /** Every cell equals `c`. */
  predicate Uniform(g: Grid, c: real) {
    forall i, j :: 0 <= i < |g| && 0 <= j < |g[i]| ==> g[i][j] == c
  }

  /** The sum of the first `n` elements of `s`, added from the front:
      the order in which the C loops accumulate. */
  function SumTo(s: seq<real>, n: nat): real
    requires n <= |s|
  {
    if n == 0 then 0.0 else SumTo(s, n - 1) + s[n - 1]
  }

  /** The mathematical sum of a row. */
  function Sum(s: seq<real>): real {
    SumTo(s, |s|)
  }

  /** The sum of every row, row by row. */
  function RowSums(g: Grid): (r: seq<real>)
    ensures |r| == |g|
  {
    seq(|g|, i requires 0 <= i < |g| => Sum(g[i]))
  }

  /** The total of all cells, row by row: the energy figure of the
      simulation. */
  function GridSum(g: Grid): real {
    Sum(RowSums(g))
  }

  /** A field with no negative cell has no negative total. */
  lemma {:induction false} GridSumNonnegative(g: Grid)
    requires Nonnegative(g)
    ensures GridSum(g) >= 0.0
  {
    var rs, rowZeros := RowSums(g), seq(|g|, _ => 0.0);
    forall r | 0 <= r < |g|
      ensures rowZeros[r] <= rs[r]
    {
      var zeros := seq(|g[r]|, _ => 0.0);
      SumZeros(zeros);
      SumMonotone(zeros, g[r]);
    }
    SumZeros(rowZeros);
    SumMonotone(rowZeros, rs);
  }

  /** Adding two sequences position by position adds their sums. */
  lemma {:induction false} SumToAdd(x: seq<real>, a: seq<real>, b: seq<real>, n: nat)
    requires |x| == |a| == |b| && n <= |x|
    requires forall k :: 0 <= k < |x| ==> x[k] == a[k] + b[k]
    ensures SumTo(x, n) == SumTo(a, n) + SumTo(b, n)
  {
    if n > 0 {
      SumToAdd(x, a, b, n - 1);
    }
  }

  lemma {:induction false} SumAdd(x: seq<real>, a: seq<real>, b: seq<real>)
    requires |x| == |a| == |b|
    requires forall k :: 0 <= k < |x| ==> x[k] == a[k] + b[k]
    ensures Sum(x) == Sum(a) + Sum(b)
  {
    SumToAdd(x, a, b, |x|);
  }

  lemma {:induction false} SumToZeros(x: seq<real>, n: nat)
    requires n <= |x|
    requires forall k :: 0 <= k < |x| ==> x[k] == 0.0
    ensures SumTo(x, n) == 0.0
  {
    if n > 0 {
      SumToZeros(x, n - 1);
    }
  }

  /** A sequence of zeros sums to zero. */
  lemma {:induction false} SumZeros(x: seq<real>)
    requires forall k :: 0 <= k < |x| ==> x[k] == 0.0
    ensures Sum(x) == 0.0
  {
    SumToZeros(x, |x|);
  }

  /** The two weights of one explicit update: the share `keep` of its
      own value a cell keeps and the weight `rate` each neighbour's value
      carries. */
  datatype Weights = Weights(keep: real, rate: real) {
    /** Forward Euler on the 5-point Laplacian: a cell gives up to its
        four neighbours exactly what it keeps less than all of itself. */
    predicate Consistent() {
      keep == 1.0 - 4.0 * rate
    }
  }

  /** The sequence `keep * a + rate * b`, position by position. */
  function Combine(w: Weights, a: seq<real>, b: seq<real>): (x: seq<real>)
    requires |a| == |b|
    ensures |x| == |a|
  {
    seq(|a|, k requires 0 <= k < |a| => w.keep * a[k] + w.rate * b[k])
  }

  lemma {:induction false} SumToCombine(w: Weights, a: seq<real>, b: seq<real>, n: nat)
    requires |a| == |b| && n <= |a|
    ensures SumTo(Combine(w, a, b), n) == w.keep * SumTo(a, n) + w.rate * SumTo(b, n)
  {
    if n > 0 {
      SumToCombine(w, a, b, n - 1);
      assert SumTo(Combine(w, a, b), n) ==
        w.keep * SumTo(a, n - 1) + w.rate * SumTo(b, n - 1) + (w.keep * a[n - 1] + w.rate * b[n - 1]);
    }
  }

  /** Sum is linear: the sum of `keep * a + rate * b` is
      `keep * Sum(a) + rate * Sum(b)`. */
  lemma {:induction false} SumCombine(w: Weights, a: seq<real>, b: seq<real>)
    requires |a| == |b|
    ensures Sum(Combine(w, a, b)) == w.keep * Sum(a) + w.rate * Sum(b)
  {
    SumToCombine(w, a, b, |a|);
  }

  /** The grid `keep * g + rate * n`, row by row. */
  function CombineGrid(w: Weights, g: Grid, n: Grid): (x: Grid)
    requires |g| == |n| && forall i :: 0 <= i < |g| ==> |g[i]| == |n[i]|
    ensures |x| == |g| && forall i :: 0 <= i < |x| ==> |x[i]| == |g[i]|
  {
    seq(|g|, i requires 0 <= i < |g| => Combine(w, g[i], n[i]))
  }

  /** The energy of `keep * g + rate * n` is
      `keep * GridSum(g) + rate * GridSum(n)`. */
  lemma {:induction false} GridSumCombine(w: Weights, g: Grid, n: Grid)
    requires |g| == |n| && forall i :: 0 <= i < |g| ==> |g[i]| == |n[i]|
    ensures GridSum(CombineGrid(w, g, n)) == w.keep * GridSum(g) + w.rate * GridSum(n)
  {
    RowSumsCombine(w, g, n);
    SumCombine(w, RowSums(g), RowSums(n));
  }

  /** Row by row, the totals of `keep * g + rate * n`. */
  lemma {:induction false} RowSumsCombine(w: Weights, g: Grid, n: Grid)
    requires |g| == |n| && forall i :: 0 <= i < |g| ==> |g[i]| == |n[i]|
    ensures RowSums(CombineGrid(w, g, n)) == Combine(w, RowSums(g), RowSums(n))
  {
    var x := CombineGrid(w, g, n);
    forall i | 0 <= i < |x|
      ensures RowSums(x)[i] == Combine(w, RowSums(g), RowSums(n))[i]
    {
      SumCombine(w, g[i], n[i]);
    }
  }

  lemma {:induction false} SumToMonotone(a: seq<real>, b: seq<real>, n: nat)
    requires |a| == |b| && n <= |a|
    requires forall k :: 0 <= k < |a| ==> a[k] <= b[k]
    ensures SumTo(a, n) <= SumTo(b, n)
    ensures (exists k :: 0 <= k < n && a[k] < b[k]) ==> SumTo(a, n) < SumTo(b, n)
  {
    if n > 0 {
      SumToMonotone(a, b, n - 1);
    }
  }

  /** Sum is monotone, and strictly so when one position is strictly smaller. */
  lemma {:induction false} SumMonotone(a: seq<real>, b: seq<real>)
    requires |a| == |b|
    requires forall k :: 0 <= k < |a| ==> a[k] <= b[k]
    ensures Sum(a) <= Sum(b)
    ensures (exists k :: 0 <= k < |a| && a[k] < b[k]) ==> Sum(a) < Sum(b)
  {
    SumToMonotone(a, b, |a|);
  }

  /** The cells of a two-dimensional buffer, read as a grid. */
  ghost function Cells(a: array2<real>): (g: Grid)
    reads a
    ensures |g| == a.Length0
    ensures forall i :: 0 <= i < a.Length0 ==> |g[i]| == a.Length1
    ensures forall i, j :: 0 <= i < a.Length0 && 0 <= j < a.Length1 ==> g[i][j] == a[i, j]
  {
    seq(a.Length0, i requires 0 <= i < a.Length0 reads a =>
      seq(a.Length1, j requires 0 <= j < a.Length1 reads a => a[i, j]))
  }

  /** Two grids with the same rows lengths and the same cells are equal. */
  lemma {:induction false} SameCells(g: Grid, h: Grid)
    requires |g| == |h|
    requires forall i :: 0 <= i < |g| ==> |g[i]| == |h[i]|
    requires forall i, j :: 0 <= i < |g| && 0 <= j < |g[i]| ==> g[i][j] == h[i][j]
    ensures g == h
  {
    forall i | 0 <= i < |g|
      ensures g[i] == h[i]
    {
    }
  }
}
