/** One explicit step of the 2-D heat equation `dT/dt = alpha * laplacian(T)`:
    forward Euler in time, the centred 5-point stencil in space, and
    reflecting (zero-flux) edges, as main.c:151-209 computes it. */
module Diffusion {
  import opened Grids
  import opened Stability

  /** Index of the neighbour before position `k` on an axis of `n` nodes
      (left along a row, above along a column, main.c:155-184). It stays
      on the axis, never wraps, and reflects to `k` itself at the start. */
  function Before(n: nat, k: nat): (r: nat)
    requires k < n
    ensures r < n
    ensures k == 0 ==> r == k
    ensures k > 0 ==> r == k - 1
  {
    if k == 0 then k else k - 1
  }

  /** Index of the neighbour after position `k` (right along a row, below
      along a column). It stays on the axis, never wraps, and reflects to
      `k` itself at the end. On a one-node axis that means `k` itself; the
      source reads index 1 there (see the AsWritten module). */
  function After(n: nat, k: nat): (r: nat)
    requires k < n
    ensures r < n
    ensures k == n - 1 ==> r == k
    ensures k < n - 1 ==> r == k + 1
  {
    if k == n - 1 then k else k + 1
  }

  /** `aveTempLeft` of main.c:154-160: the cell to the left, the cell
      itself on the first column, and zero on a one-column grid. */
  function Left(g: Grid, i: nat, j: nat): (v: real)
    requires IsGrid(g) && i < Height(g) && j < Width(g)
    ensures Width(g) == 1 ==> v == 0.0
    ensures Width(g) > 1 && j == 0 ==> v == g[i][j]
    ensures Width(g) > 1 && j > 0 ==> v == g[i][j - 1]
  {
    if Width(g) == 1 then 0.0 else g[i][Before(Width(g), j)]
  }

  /** `aveTempRight` of main.c:154-160: the cell to the right, the cell
      itself on the last column, and zero on a one-column grid. */
  function Right(g: Grid, i: nat, j: nat): (v: real)
    requires IsGrid(g) && i < Height(g) && j < Width(g)
    ensures Width(g) == 1 ==> v == 0.0
    ensures Width(g) > 1 && j == Width(g) - 1 ==> v == g[i][j]
    ensures Width(g) > 1 && j < Width(g) - 1 ==> v == g[i][j + 1]
  {
    if Width(g) == 1 then 0.0 else g[i][After(Width(g), j)]
  }

  /** `aveTempAbove` of main.c:170-176: the cell above, the cell itself on
      the first row, and zero on a one-row grid. */
  function Above(g: Grid, i: nat, j: nat): (v: real)
    requires IsGrid(g) && i < Height(g) && j < Width(g)
    ensures Height(g) == 1 ==> v == 0.0
    ensures Height(g) > 1 && i == 0 ==> v == g[i][j]
    ensures Height(g) > 1 && i > 0 ==> v == g[i - 1][j]
  {
    if Height(g) == 1 then 0.0 else g[Before(Height(g), i)][j]
  }

  /** `aveTempBelow` of main.c:170-176: the cell below, the cell itself on
      the last row, and zero on a one-row grid. */
  function Below(g: Grid, i: nat, j: nat): (v: real)
    requires IsGrid(g) && i < Height(g) && j < Width(g)
    ensures Height(g) == 1 ==> v == 0.0
    ensures Height(g) > 1 && i == Height(g) - 1 ==> v == g[i][j]
    ensures Height(g) > 1 && i < Height(g) - 1 ==> v == g[i + 1][j]
  {
    if Height(g) == 1 then 0.0 else g[After(Height(g), i)][j]
  }

  /** The four neighbours a cell's update sees (main.c:154-195). On a
      grid at least two nodes each way they are four cells of the grid,
      each the cell itself or adjacent to it; on a one-column grid only the
      vertical pair counts, and on a one-row grid only the horizontal one. */
  function NeighbourTotal(g: Grid, i: nat, j: nat): (t: real)
    requires IsGrid(g) && i < Height(g) && j < Width(g)
    ensures Width(g) >= 2 && Height(g) >= 2 ==>
      t == g[Before(Height(g), i)][j] + g[After(Height(g), i)][j] + g[i][Before(Width(g), j)] + g[i][After(Width(g), j)]
    ensures Width(g) == 1 ==> t == Above(g, i, j) + Below(g, i, j)
    ensures Height(g) == 1 ==> t == Left(g, i, j) + Right(g, i, j)
  {
    Left(g, i, j) + Right(g, i, j) + Above(g, i, j) + Below(g, i, j)
  }

  /** `dTi_dt` of main.c:198-201: the neighbours' total over `h^2`, times
      `alpha` and `dt`. It is the mesh ratio times that total. */
  function Driver(left: real, right: real, above: real, below: real, p: Params): (d: real)
    requires p.Valid()
    ensures d == Rate(p) * (left + right + above + below)
  {
    var hh, total := p.h * p.h, left + right + above + below;
    QuotientOf(total * p.alpha * p.dt, hh, Rate(p) * total);
    (left + right + above + below) / hh * p.alpha * p.dt
  }

  /** The weights main.c uses for a configuration. They are consistent,
      the rate is positive, and the stability gate of main.c:48 holds
      exactly when the rate is under a quarter, that is exactly when every
      cell keeps a positive share of its own value. */
  function WeightsOf(p: Params): (w: Weights)
    requires p.Valid()
    ensures w.rate == Rate(p) && w.keep == Retention(p)
    ensures w.Consistent() && w.rate > 0.0
    ensures IsStable(p) <==> w.rate < 0.25
    ensures IsStable(p) <==> w.keep > 0.0
  {
    StableIffPositiveRetention(p);
    Weights(Retention(p), Rate(p))
  }

  /** The new value of cell (i, j): it keeps `w.keep` of its own value and
      gains `w.rate` times its neighbours' total. */
  function UpdateCell(g: Grid, i: nat, j: nat, w: Weights): real
    requires IsGrid(g) && i < Height(g) && j < Width(g)
  {
    w.keep * g[i][j] + w.rate * NeighbourTotal(g, i, j)
  }

  /** With consistent weights the update is forward Euler on the discrete
      Laplacian: the old value plus the rate times the neighbours' total
      less four times the cell. */
  lemma {:induction false} UpdateIsEulerStep(g: Grid, i: nat, j: nat, w: Weights)
    requires IsGrid(g) && i < Height(g) && j < Width(g) && w.Consistent()
    ensures UpdateCell(g, i, j, w) == g[i][j] + w.rate * (NeighbourTotal(g, i, j) - 4.0 * g[i][j])
  {
  }

  /** The neighbours' totals along row `i`. */
  function NeighbourTotals(g: Grid, i: nat): (t: seq<real>)
    requires IsGrid(g) && i < Height(g)
    ensures |t| == Width(g)
  {
    seq(Width(g), j requires 0 <= j < Width(g) => NeighbourTotal(g, i, j))
  }

  /** Every cell's neighbour total, over the whole grid. */
  function NeighbourGrid(g: Grid): (n: Grid)
    requires IsGrid(g)
    ensures IsGrid(n) && Height(n) == Height(g) && Width(n) == Width(g)
  {
    seq(Height(g), i requires 0 <= i < Height(g) => NeighbourTotals(g, i))
  }

  /** The first `k` rows of one sweep, built row by row as the outer loop
      of main.c:151 visits them: row `i` is `w.keep` times row `i` of `g`
      plus `w.rate` times its neighbour totals. */
  function StepRows(g: Grid, w: Weights, k: nat): (r: Grid)
    requires IsGrid(g) && k <= Height(g)
    ensures |r| == k && forall i :: 0 <= i < k ==> |r[i]| == Width(g)
  {
    if k == 0 then [] else StepRows(g, w, k - 1) + [Combine(w, g[k - 1], NeighbourTotals(g, k - 1))]
  }

  /** One sweep over the whole field, computed from `g` alone. */
  function Step(g: Grid, w: Weights): (r: Grid)
    requires IsGrid(g)
    ensures IsGrid(r) && Height(r) == Height(g) && Width(r) == Width(g)
  {
    StepRows(g, w, Height(g))
  }

  lemma {:induction false} StepRowsAt(g: Grid, w: Weights, k: nat, i: nat)
    requires IsGrid(g) && i < k <= Height(g)
    ensures StepRows(g, w, k)[i] == Combine(w, g[i], NeighbourTotals(g, i))
  {
    if i < k - 1 {
      StepRowsAt(g, w, k - 1, i);
    }
  }

  /** Each cell of a step is its update. */
  lemma {:induction false} StepAt(g: Grid, w: Weights, i: nat, j: nat)
    requires IsGrid(g) && i < Height(g) && j < Width(g)
    ensures Step(g, w)[i][j] == UpdateCell(g, i, j, w)
  {
    StepRowsAt(g, w, Height(g), i);
  }

  /** A step is `w.keep` times the field plus `w.rate` times the field of
      neighbour totals. */
  lemma {:induction false} StepIsCombination(g: Grid, w: Weights)
    requires IsGrid(g)
    ensures Step(g, w) == CombineGrid(w, g, NeighbourGrid(g))
  {
    var s, c := Step(g, w), CombineGrid(w, g, NeighbourGrid(g));
    forall i | 0 <= i < Height(g)
      ensures s[i] == c[i]
    {
      StepRowsAt(g, w, Height(g), i);
    }
  }

  /** The sweep of main.c:151-209, lifted out of `main`: every cell of
      `next` is recomputed from `cur`, which the sweep only reads. Both
      buffers are `H x W`. */
  method Sweep(cur: array2<real>, next: array2<real>, p: Params)
    requires p.Valid() && cur != next
    requires cur.Length0 >= 1 && cur.Length1 >= 1
    requires next.Length0 == cur.Length0 && next.Length1 == cur.Length1
    modifies next
    ensures unchanged(cur)
    ensures Cells(next) == Step(Cells(cur), WeightsOf(p))
  {
    ghost var g, wt := Cells(cur), WeightsOf(p);
    var h, w := cur.Length0, cur.Length1;
    for i := 0 to h
      invariant forall r, c :: 0 <= r < i && 0 <= c < w ==> next[r, c] == UpdateCell(g, r, c, wt)
    {
      SweepRow(cur, next, p, i);
    }
    forall r, c | 0 <= r < h && 0 <= c < w
      ensures Step(g, wt)[r][c] == next[r, c]
    {
      StepAt(g, wt, r, c);
    }
    SameCells(Cells(next), Step(g, wt));
  }

  /** One pass of the inner loop of the sweep (main.c:155-208): row `i`
      of `next` receives its updates, every other row is left alone. */
  method SweepRow(cur: array2<real>, next: array2<real>, p: Params, i: nat)
    requires p.Valid() && cur != next
    requires cur.Length0 >= 1 && cur.Length1 >= 1 && i < cur.Length0
    requires next.Length0 == cur.Length0 && next.Length1 == cur.Length1
    modifies next
    ensures forall c :: 0 <= c < next.Length1 ==> next[i, c] == UpdateCell(Cells(cur), i, c, WeightsOf(p))
    ensures forall r, c :: 0 <= r < next.Length0 && r != i && 0 <= c < next.Length1 ==> next[r, c] == old(next[r, c])
  {
    ghost var g, wt := Cells(cur), WeightsOf(p);
    var h, w := cur.Length0, cur.Length1;
    for j := 0 to w
      invariant forall c :: 0 <= c < j ==> next[i, c] == UpdateCell(g, i, c, wt)
      invariant forall r, c :: 0 <= r < h && r != i && 0 <= c < w ==> next[r, c] == old(next[r, c])
    {
      var left, right := cur[i, Before(w, j)], cur[i, After(w, j)];
      var above, below := cur[Before(h, i), j], cur[After(h, i), j];
      if w == 1 {
        left, right := 0.0, 0.0;
      }
      if h == 1 {
        above, below := 0.0, 0.0;
      }
      var change := Driver(left, right, above, below, p);
      var coefficient := Retention(p);
      next[i, j] := coefficient * cur[i, j] + change;
      CellUpdate(g, i, j, p, left, right, above, below);
    }
  }

  /** The value the sweep stores for cell (i, j), from the four
      neighbour readings it makes, is that cell's update. */
  lemma {:induction false} CellUpdate(g: Grid, i: nat, j: nat, p: Params,
                                      left: real, right: real, above: real, below: real)
    requires IsGrid(g) && i < Height(g) && j < Width(g) && p.Valid()
    requires left == Left(g, i, j) && right == Right(g, i, j)
    requires above == Above(g, i, j) && below == Below(g, i, j)
    ensures Retention(p) * g[i][j] + Driver(left, right, above, below, p) == UpdateCell(g, i, j, WeightsOf(p))
  {
    assert left + right + above + below == NeighbourTotal(g, i, j);
  }

  /** `n` sweeps in a row. */
  function Iterate(g: Grid, w: Weights, n: nat): (r: Grid)
    requires IsGrid(g)
    ensures IsGrid(r) && Height(r) == Height(g) && Width(r) == Width(g)
  {
    if n == 0 then g else Step(Iterate(g, w, n - 1), w)
  }

  // ---------------------------------------------------------------------
  // Energy

  /** How much a pair of opposite neighbours contributes along an axis of
      `n` nodes, in multiples of the row (or column) total: twice it, or
      nothing when the pair is zeroed on a one-node axis. */
  function PairWeight(n: nat): real {
    if n == 1 then 0.0 else 2.0
  }

  function FromBefore(a: seq<real>): (r: seq<real>)
    requires |a| >= 1
    ensures |r| == |a|
  {
    seq(|a|, k requires 0 <= k < |a| => a[Before(|a|, k)])
  }

  function FromAfter(a: seq<real>): (r: seq<real>)
    requires |a| >= 1
    ensures |r| == |a|
  {
    seq(|a|, k requires 0 <= k < |a| => a[After(|a|, k)])
  }

  lemma {:induction false} SumToFromBefore(a: seq<real>, k: nat)
    requires 1 <= k <= |a|
    ensures SumTo(FromBefore(a), k) == a[0] + SumTo(a, k - 1)
  {
    if k > 1 {
      SumToFromBefore(a, k - 1);
    }
  }

  lemma {:induction false} SumToFromAfter(a: seq<real>, k: nat)
    requires k < |a|
    ensures SumTo(FromAfter(a), k) + a[0] == SumTo(a, k + 1)
  {
    if k > 0 {
      SumToFromAfter(a, k - 1);
    }
  }

  /** With reflecting ends, every node is read exactly twice across the
      "before" and "after" slots of its axis. */
  lemma {:induction false} ReflectedPairsCountTwice(a: seq<real>)
    requires |a| >= 1
    ensures Sum(FromBefore(a)) + Sum(FromAfter(a)) == 2.0 * Sum(a)
  {
    var n := |a|;
    SumToFromBefore(a, n);
    SumToFromAfter(a, n - 1);
  }

  /** The sum of the rows just above and below row `i` (nothing on a
      one-row grid). */
  function VerticalPairs(g: Grid, i: nat): real
    requires IsGrid(g) && i < Height(g)
  {
    if Height(g) == 1 then 0.0
    else Sum(g[Before(Height(g), i)]) + Sum(g[After(Height(g), i)])
  }

  /** Left plus right for every cell of row `i`. */
  function HorizontalPairs(g: Grid, i: nat): (r: seq<real>)
    requires IsGrid(g) && i < Height(g)
    ensures |r| == Width(g)
  {
    seq(Width(g), j requires 0 <= j < Width(g) => Left(g, i, j) + Right(g, i, j))
  }

  /** Above plus below for every cell of row `i`. */
  function VerticalNeighbours(g: Grid, i: nat): (r: seq<real>)
    requires IsGrid(g) && i < Height(g)
    ensures |r| == Width(g)
  {
    seq(Width(g), j requires 0 <= j < Width(g) => Above(g, i, j) + Below(g, i, j))
  }

  lemma {:induction false} HorizontalPairsSum(g: Grid, i: nat)
    requires IsGrid(g) && i < Height(g)
    ensures Sum(HorizontalPairs(g, i)) == PairWeight(Width(g)) * Sum(g[i])
  {
    var hp := HorizontalPairs(g, i);
    if Width(g) == 1 {
      SumZeros(hp);
    } else {
      SumAdd(hp, FromBefore(g[i]), FromAfter(g[i]));
      ReflectedPairsCountTwice(g[i]);
    }
  }

  lemma {:induction false} VerticalNeighboursSum(g: Grid, i: nat)
    requires IsGrid(g) && i < Height(g)
    ensures Sum(VerticalNeighbours(g, i)) == VerticalPairs(g, i)
  {
    var h, vp := Height(g), VerticalNeighbours(g, i);
    if h == 1 {
      SumZeros(vp);
    } else {
      SumAdd(vp, g[Before(h, i)], g[After(h, i)]);
    }
  }

  /** Row `i`'s neighbour totals add up to the row itself read
      `PairWeight(W)` times along its own axis, plus the rows above and
      below it. */
  lemma {:induction false} RowNeighbourEnergy(g: Grid, i: nat)
    requires IsGrid(g) && i < Height(g)
    ensures Sum(NeighbourTotals(g, i)) == PairWeight(Width(g)) * Sum(g[i]) + VerticalPairs(g, i)
  {
    SumAdd(NeighbourTotals(g, i), HorizontalPairs(g, i), VerticalNeighbours(g, i));
    HorizontalPairsSum(g, i);
    VerticalNeighboursSum(g, i);
  }

  /** The totals of the rows above and below, row by row. */
  function VerticalPairSums(g: Grid): (v: seq<real>)
    requires IsGrid(g)
    ensures |v| == Height(g)
  {
    seq(Height(g), i requires 0 <= i < Height(g) => VerticalPairs(g, i))
  }

  /** Across the whole grid, every row is read twice as a vertical
      neighbour, or never on a one-row grid. */
  lemma {:induction false} VerticalPairSumsTotal(g: Grid)
    requires IsGrid(g)
    ensures Sum(VerticalPairSums(g)) == PairWeight(Height(g)) * GridSum(g)
  {
    var vr, rs := VerticalPairSums(g), RowSums(g);
    if Height(g) == 1 {
      SumZeros(vr);
    } else {
      SumAdd(vr, FromBefore(rs), FromAfter(rs));
      ReflectedPairsCountTwice(rs);
    }
  }

  /** Every cell is read as a neighbour `PairWeight(W) + PairWeight(H)`
      times in all (four times on a grid at least two nodes each way), so
      the neighbour totals of a grid add up to that multiple of its
      energy. */
  lemma {:induction false} NeighbourEnergy(g: Grid)
    requires IsGrid(g)
    ensures GridSum(NeighbourGrid(g)) == (PairWeight(Width(g)) + PairWeight(Height(g))) * GridSum(g)
  {
    var ns, axis := RowSums(NeighbourGrid(g)), Weights(PairWeight(Width(g)), 1.0);
    forall i | 0 <= i < Height(g)
      ensures ns[i] == Combine(axis, RowSums(g), VerticalPairSums(g))[i]
    {
      RowNeighbourEnergy(g, i);
    }
    assert ns == Combine(axis, RowSums(g), VerticalPairSums(g));
    SumCombine(axis, RowSums(g), VerticalPairSums(g));
    VerticalPairSumsTotal(g);
  }

  /** The energy after one step on any grid: `keep` of the old energy
      plus `rate` times the neighbour totals, which are the old energy
      counted `PairWeight(W) + PairWeight(H)` times. */
  lemma {:induction false} StepEnergy(g: Grid, w: Weights)
    requires IsGrid(g)
    ensures GridSum(Step(g, w)) ==
      w.keep * GridSum(g) + w.rate * ((PairWeight(Width(g)) + PairWeight(Height(g))) * GridSum(g))
  {
    StepIsCombination(g, w);
    GridSumCombine(w, g, NeighbourGrid(g));
    NeighbourEnergy(g);
  }

  /** On a grid at least two nodes wide and high, a step with consistent
      weights keeps the total exactly: the energy check of main.c:124-125
      reads no drift. */
  lemma {:induction false} StepConservesEnergy(g: Grid, w: Weights)
    requires IsGrid(g) && w.Consistent() && Width(g) >= 2 && Height(g) >= 2
    ensures GridSum(Step(g, w)) == GridSum(g)
  {
    StepEnergy(g, w);
    Conserved(w, GridSum(g), GridSum(Step(g, w)));
  }

  lemma {:induction false} Conserved(w: Weights, total: real, after: real)
    requires w.Consistent() && after == w.keep * total + w.rate * ((2.0 + 2.0) * total)
    ensures after == total
  {
  }

  lemma {:induction false} IterateConservesEnergy(g: Grid, w: Weights, n: nat)
    requires IsGrid(g) && w.Consistent() && Width(g) >= 2 && Height(g) >= 2
    ensures GridSum(Iterate(g, w, n)) == GridSum(g)
  {
    if n > 0 {
      IterateConservesEnergy(g, w, n - 1);
      StepConservesEnergy(Iterate(g, w, n - 1), w);
    }
  }

  /** A one-column or one-row grid with positive total loses energy at
      every step with consistent positive weights: its zeroed pair of
      neighbours acts as a cold wall. */
  lemma {:induction false} DegenerateStepLosesEnergy(g: Grid, w: Weights)
    requires IsGrid(g) && w.Consistent() && w.rate > 0.0
    requires Width(g) == 1 || Height(g) == 1
    requires GridSum(g) > 0.0
    ensures GridSum(Step(g, w)) < GridSum(g)
  {
    StepEnergy(g, w);
    Lost(w, PairWeight(Width(g)) + PairWeight(Height(g)), GridSum(g), GridSum(Step(g, w)));
  }

  lemma {:induction false} Lost(w: Weights, count: real, total: real, after: real)
    requires w.Consistent() && w.rate > 0.0 && count < 4.0 && total > 0.0
    requires after == w.keep * total + w.rate * (count * total)
    ensures after < total
  {
    ScaleStrict(count, 4.0, total);
    ScaleStrict(count * total, 4.0 * total, w.rate);
  }

  // ---------------------------------------------------------------------
  // Sign and fixed points

  /** With non-negative weights (the stability gate gives a positive
      `keep`), a field with no negative cell steps to a field with no
      negative cell: the clamp of main.c:220 then has nothing to do in
      exact arithmetic. */
  lemma {:induction false} StepPreservesNonnegative(g: Grid, w: Weights)
    requires IsGrid(g) && w.keep >= 0.0 && w.rate >= 0.0 && Nonnegative(g)
    ensures Nonnegative(Step(g, w))
  {
    var s := Step(g, w);
    forall i, j | 0 <= i < |s| && 0 <= j < |s[i]|
      ensures s[i][j] >= 0.0
    {
      StepAt(g, w, i, j);
      UpdateNonnegative(g, i, j, w);
    }
  }

  /** The update of one cell is a non-negative combination of
      non-negative readings. */
  lemma {:induction false} UpdateNonnegative(g: Grid, i: nat, j: nat, w: Weights)
    requires IsGrid(g) && i < Height(g) && j < Width(g)
    requires w.keep >= 0.0 && w.rate >= 0.0 && Nonnegative(g)
    ensures UpdateCell(g, i, j, w) >= 0.0
  {
    assert NeighbourTotal(g, i, j) >= 0.0;
    WeightedNonnegative(w.keep, g[i][j], w.rate, NeighbourTotal(g, i, j));
  }

  lemma {:induction false} WeightedNonnegative(c: real, x: real, r: real, y: real)
    requires c >= 0.0 && x >= 0.0 && r >= 0.0 && y >= 0.0
    ensures c * x + r * y >= 0.0
  {
  }

  lemma {:induction false} IteratePreservesNonnegative(g: Grid, w: Weights, n: nat)
    requires IsGrid(g) && w.keep >= 0.0 && w.rate >= 0.0 && Nonnegative(g)
    ensures Nonnegative(Iterate(g, w, n))
  {
    if n > 0 {
      IteratePreservesNonnegative(g, w, n - 1);
      StepPreservesNonnegative(Iterate(g, w, n - 1), w);
    }
  }

  /** On a grid at least two nodes wide and high, a field of one constant
      temperature is left unchanged by a step with consistent weights. */
  lemma {:induction false} UniformIsFixedPoint(g: Grid, c: real, w: Weights)
    requires IsGrid(g) && w.Consistent() && Width(g) >= 2 && Height(g) >= 2 && Uniform(g, c)
    ensures Step(g, w) == g
  {
    var s := Step(g, w);
    forall i, j | 0 <= i < |g| && 0 <= j < |g[i]|
      ensures s[i][j] == g[i][j]
    {
      StepAt(g, w, i, j);
      assert NeighbourTotal(g, i, j) == 4.0 * c;
    }
    SameCells(s, g);
  }

  /** The all-zero field stays all-zero, on every grid shape. */
  lemma {:induction false} ZeroIsFixedPoint(g: Grid, w: Weights)
    requires IsGrid(g) && Uniform(g, 0.0)
    ensures Step(g, w) == g
  {
    var s := Step(g, w);
    forall i, j | 0 <= i < |g| && 0 <= j < |g[i]|
      ensures s[i][j] == g[i][j]
    {
      StepAt(g, w, i, j);
      assert NeighbourTotal(g, i, j) == 0.0;
    }
    SameCells(s, g);
  }

  /** A single hot interior node of value `v` in a cold field: after one
      step with consistent weights under the stability bound it has cooled
      but stays positive, and each of its four neighbours has warmed to
      `rate * v`. */
  lemma {:induction false} PointSourceSpreads(g: Grid, w: Weights, si: nat, sj: nat, v: real)
    requires IsGrid(g) && w.Consistent() && 0.0 < w.rate < 0.25
    requires 0 < si < Height(g) - 1 && 0 < sj < Width(g) - 1 && v > 0.0
    requires g[si][sj] == v
    requires forall i, j :: 0 <= i < Height(g) && 0 <= j < Width(g) && (i != si || j != sj) ==> g[i][j] == 0.0
    ensures 0.0 < Step(g, w)[si][sj] < v
    ensures Step(g, w)[si - 1][sj] == w.rate * v && Step(g, w)[si + 1][sj] == w.rate * v
    ensures Step(g, w)[si][sj - 1] == w.rate * v && Step(g, w)[si][sj + 1] == w.rate * v
    ensures w.rate * v > 0.0
  {
    StepAt(g, w, si, sj);
    StepAt(g, w, si - 1, sj);
    StepAt(g, w, si + 1, sj);
    StepAt(g, w, si, sj - 1);
    StepAt(g, w, si, sj + 1);
    assert NeighbourTotal(g, si, sj) == 0.0;
    assert NeighbourTotal(g, si - 1, sj) == v;
    assert NeighbourTotal(g, si + 1, sj) == v;
    assert NeighbourTotal(g, si, sj - 1) == v;
    assert NeighbourTotal(g, si, sj + 1) == v;
    ScaleStrict(w.keep, 1.0, v);
    ScaleStrict(0.0, w.keep, v);
    ScaleStrict(0.0, w.rate, v);
  }

  /** Stepping `m` times and then `n` more is stepping `m + n` times: the
      stepper carries no hidden state between calls. */
  lemma {:induction false} IterateAdditive(g: Grid, w: Weights, m: nat, n: nat)
    requires IsGrid(g)
    ensures Iterate(Iterate(g, w, m), w, n) == Iterate(g, w, m + n)
  {
    if n > 0 {
      IterateAdditive(g, w, m, n - 1);
    }
  }
}
