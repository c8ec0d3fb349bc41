/** `main` (main.c:43-213) with its terminal output left out: the gate,
    the starting field, and a number of frames, each of which clamps and
    measures the field `printArray` and `sumArray` see, takes the snapshot
    and sweeps. */
module Simulation {
  import opened Grids
  import opened Stability
  import opened Diffusion
  import opened InitialField
  import opened Bookkeeping
  import opened Config

  /** One frame of the loop of main.c:118-210 on the field `a_newField`
      holds: `printArray` clamps it (main.c:121, 220), then the sweep
      recomputes it from its snapshot (main.c:142, 151-209). */
  function Frame(g: Grid, w: Weights): (r: Grid)
    requires IsGrid(g)
    ensures IsGrid(r) && Height(r) == Height(g) && Width(r) == Width(g)
  {
    var c := Clamp(g);
    assert IsGrid(c) by {
      assert |c[0]| == |g[0]|;
    }
    Step(c, w)
  }

  /** `a_newField` at the top of frame `n`, starting from `g`. */
  function Evolve(g: Grid, w: Weights, n: nat): (r: Grid)
    requires IsGrid(g)
    ensures IsGrid(r) && Height(r) == Height(g) && Width(r) == Width(g)
  {
    if n == 0 then g else Frame(Evolve(g, w, n - 1), w)
  }

  /** The field the loop starts from: the built field after the clamp of
      `printArray(a_startField)` (main.c:87), copied into `a_newField`. It
      has no negative cell, whatever the configured temperatures. */
  function Opening(b: Boundary, w: nat, h: nat, one: HeatSource, two: HeatSource): (g: Grid)
    requires w >= 1 && h >= 1
    ensures IsGrid(g) && Width(g) == w && Height(g) == h
    ensures Nonnegative(g)
  {
    var f := StartField(b, w, h, one, two);
    var c := Clamp(f);
    ClampIsNonnegative(f);
    assert |c[0]| == |f[0]|;
    c
  }

  /** The energies `sumArray` reports at the top of the first `n` frames
      (main.c:121-125): each frame's field after the clamp. */
  function Readings(g: Grid, w: Weights, n: nat): (r: seq<real>)
    requires IsGrid(g)
    ensures |r| == n
    ensures forall k :: 0 <= k < n ==> r[k] == GridSum(Clamp(Evolve(g, w, k)))
  {
    if n == 0 then [] else Readings(g, w, n - 1) + [GridSum(Clamp(Evolve(g, w, n - 1)))]
  }

  /** `main` without its output: 1 when the gate fails, before any field
      is built; otherwise 0, with the energy of the starting field and the
      energy `sumArray` measures at the top of each of `frames` frames
      (main.c:88, 124). The loop runs `frames` times rather than until
      `time` reaches `FINAL_TIME`. */
  method Run(p: Params, b: Boundary, one: HeatSource, two: HeatSource, w: nat, h: nat, frames: nat)
    returns (code: int, initialEnergy: real, energies: seq<real>)
    requires p.Valid() && w >= 1 && h >= 1 && OnGrid(one, w, h) && OnGrid(two, w, h)
    ensures !IsStable(p) ==> code == 1 && energies == []
    ensures IsStable(p) ==> code == 0
    ensures IsStable(p) ==> initialEnergy == GridSum(Opening(b, w, h, one, two))
    ensures IsStable(p) ==> energies == Readings(Opening(b, w, h, one, two), WeightsOf(p), frames)
  {
    if !IsStable(p) {
      return 1, 0.0, [];
    }
    var next, cur;
    next, cur, initialEnergy := Prepare(b, one, two, w, h);
    ghost var opening, wt := Opening(b, w, h, one, two), WeightsOf(p);
    energies := [];
    for k := 0 to frames
      invariant Cells(next) == Evolve(opening, wt, k)
      invariant energies == Readings(opening, wt, k)
    {
      var energy := RunFrame(next, cur, p);
      energies := energies + [energy];
    }
    code := 0;
  }

  /** main.c:56-97: build the starting field, clamp and measure it as
      `printArray` and `sumArray` do, and copy it into `a_newField`. The
      second copy of main.c:97 goes into `a_newField` again; `a_curField`
      is first written by the snapshot of the first frame. */
  method Prepare(b: Boundary, one: HeatSource, two: HeatSource, w: nat, h: nat)
    returns (next: array2<real>, cur: array2<real>, initialEnergy: real)
    requires w >= 1 && h >= 1 && OnGrid(one, w, h) && OnGrid(two, w, h)
    ensures fresh(next) && fresh(cur) && next != cur
    ensures next.Length0 == cur.Length0 == h && next.Length1 == cur.Length1 == w
    ensures Cells(next) == Opening(b, w, h, one, two)
    ensures initialEnergy == GridSum(Opening(b, w, h, one, two))
  {
    var start := new real[h, w];
    BuildStartField(start, b, one, two);
    ClampNegatives(start);
    initialEnergy := SumArray(start);
    next := new real[h, w];
    CopyArray(start, next);
    cur := new real[h, w];
    CopyArray(start, next);
  }

  /** One pass of the loop body of main.c:118-209: clamp `a_newField`
      while printing it, measure it, take the snapshot into `a_curField`
      and sweep. */
  method RunFrame(next: array2<real>, cur: array2<real>, p: Params) returns (energy: real)
    requires p.Valid() && next != cur
    requires next.Length0 >= 1 && next.Length1 >= 1
    requires cur.Length0 == next.Length0 && cur.Length1 == next.Length1
    modifies next, cur
    ensures energy == GridSum(Clamp(old(Cells(next))))
    ensures Cells(cur) == Clamp(old(Cells(next)))
    ensures Cells(next) == Frame(old(Cells(next)), WeightsOf(p))
  {
    ghost var g := Cells(next);
    ClampNegatives(next);
    energy := SumArray(next);
    CopyArray(next, cur);
    Sweep(cur, next, p);
  }

  /** A field with no negative cell is left alone by the clamp, so its
      frame is a plain step. */
  lemma {:induction false} FrameOfNonnegative(g: Grid, w: Weights)
    requires IsGrid(g) && Nonnegative(g)
    ensures Frame(g, w) == Step(g, w)
  {
    ClampFixesExactlyNonnegative(g);
  }

  /** With non-negative weights the clamp never fires on a field that
      starts non-negative: the frames are exactly the sweeps. */
  lemma {:induction false} EvolveIsIterate(g: Grid, w: Weights, n: nat)
    requires IsGrid(g) && Nonnegative(g) && w.keep >= 0.0 && w.rate >= 0.0
    ensures Evolve(g, w, n) == Iterate(g, w, n)
    ensures Nonnegative(Evolve(g, w, n))
  {
    if n > 0 {
      EvolveIsIterate(g, w, n - 1);
      var prev := Evolve(g, w, n - 1);
      FrameOfNonnegative(prev, w);
      StepPreservesNonnegative(prev, w);
    }
  }

  /** Under the gate, a sweep of a field with no negative cell leaves no
      negative cell (main.c:48, 203-207). */
  lemma {:induction false} SweepPreservesNonnegative(g: Grid, p: Params)
    requires IsGrid(g) && p.Valid() && IsStable(p) && Nonnegative(g)
    ensures Nonnegative(Step(g, WeightsOf(p)))
  {
    StepPreservesNonnegative(g, WeightsOf(p));
  }

  /** On a grid at least two nodes each way, a sweep keeps the total that
      `sumArray` measures, whatever the parameters. */
  lemma {:induction false} SweepConservesEnergy(g: Grid, p: Params)
    requires IsGrid(g) && p.Valid() && Width(g) >= 2 && Height(g) >= 2
    ensures GridSum(Step(g, WeightsOf(p))) == GridSum(g)
  {
    StepConservesEnergy(g, WeightsOf(p));
  }

  /** Under the gate, on a grid at least two nodes each way: every frame
      measures the energy of the starting field. Negative configured
      temperatures are no exception, because the starting field is clamped
      before its energy is taken (main.c:87-88). */
  lemma {:induction false} FramesKeepEnergy(p: Params, b: Boundary, one: HeatSource, two: HeatSource,
                                            w: nat, h: nat, k: nat)
    requires p.Valid() && IsStable(p) && w >= 2 && h >= 2
    ensures GridSum(Clamp(Evolve(Opening(b, w, h, one, two), WeightsOf(p), k))) == GridSum(Opening(b, w, h, one, two))
  {
    var g, wt := Opening(b, w, h, one, two), WeightsOf(p);
    ClampIsNonnegative(StartField(b, w, h, one, two));
    EvolveIsIterate(g, wt, k);
    ClampFixesExactlyNonnegative(Evolve(g, wt, k));
    IterateConservesEnergy(g, wt, k);
  }

  /** A field with no negative cell and one positive cell has positive
      energy. */
  lemma {:induction false} PositiveCellPositiveEnergy(g: Grid, i: nat, j: nat)
    requires IsGrid(g) && Nonnegative(g) && i < Height(g) && j < Width(g) && g[i][j] > 0.0
    ensures GridSum(g) > 0.0
  {
    var zeros, rowZeros, rs := seq(Width(g), _ => 0.0), seq(Height(g), _ => 0.0), RowSums(g);
    SumZeros(zeros);
    SumZeros(rowZeros);
    forall r | 0 <= r < Height(g)
      ensures rowZeros[r] <= rs[r]
    {
      SumMonotone(zeros, g[r]);
    }
    assert zeros[j] < g[i][j];
    SumMonotone(zeros, g[i]);
    assert rowZeros[i] < rs[i];
    SumMonotone(rowZeros, rs);
  }

  /** Under the same conditions, with the second source on the grid and
      hotter than zero, the starting energy is positive and the deviation
      `showArrayStats` prints is zero at every frame. */
  lemma {:induction false} NoReportedDrift(p: Params, b: Boundary, one: HeatSource, two: HeatSource,
                                           w: nat, h: nat, k: nat)
    requires p.Valid() && IsStable(p) && w >= 2 && h >= 2 && OnGrid(two, w, h) && two.temp > 0.0
    ensures GridSum(Opening(b, w, h, one, two)) > 0.0
    ensures Deviation(GridSum(Clamp(Evolve(Opening(b, w, h, one, two), WeightsOf(p), k))),
                      GridSum(Opening(b, w, h, one, two))) == 0.0
  {
    var f := StartField(b, w, h, one, two);
    var g := Opening(b, w, h, one, two);
    ClampIsNonnegative(f);
    assert f[two.row][two.col] == two.temp;
    assert g[two.row][two.col] == ClampCell(f[two.row][two.col]);
    PositiveCellPositiveEnergy(g, two.row, two.col);
    FramesKeepEnergy(p, b, one, two, w, h, k);
  }

  /** The compiled-in run: the gate passes, the starting field holds 200
      units of heat spread over nothing negative, and in exact arithmetic
      every frame prints a deviation of zero. */
  lemma {:induction false} SourceRunHasNoDrift(k: nat)
    ensures Source.Valid() && IsStable(Source)
    ensures GridSum(Opening(Bar, NodesX, NodesY, PointOne, PointTwo)) > 0.0
    ensures Deviation(GridSum(Clamp(Evolve(Opening(Bar, NodesX, NodesY, PointOne, PointTwo), WeightsOf(Source), k))),
                      GridSum(Opening(Bar, NodesX, NodesY, PointOne, PointTwo))) == 0.0
  {
    SourceIsStable();
    SourcesOnGrid();
    NoReportedDrift(Source, Bar, PointOne, PointTwo, NodesX, NodesY, k);
  }
}
