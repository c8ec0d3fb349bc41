# Explicit 2-D heat diffusion, modelled in Dafny

`main.c` simulates heat spreading over a rectangular plate. The temperature
`T` obeys `dT/dt = alpha * laplacian(T)`. The program integrates it with
forward Euler in time and the centred 5-point stencil in space. A missing
neighbour at an edge takes the cell's own value, so the edges reflect.
Before doing anything, `main` checks the stability condition
`dt < h^2 / (4 alpha)` and exits with code 1 if it fails.

After the check, `main` builds a starting field: a bar whose first and last
columns have their own temperatures, plus two point sources. Each frame then
does four things:
- clamps the negative cells of the field to zero while printing it;
- sums the field and reports the relative drift from the starting energy;
- copies the field into a snapshot;
- recomputes every cell from that snapshot.

This project models that core with the arithmetic idealised to `real`:
- the stability gate;
- the initial-field loops;
- the sweep, lifted out of `main` as a method over `array2<real>` buffers;
- `copyArray`, `sumArray`, the deviation formula and the clamp of
  `printArray`;
- the glyph ladder `heatVisualsReturn`;
- `main` itself, as a method that runs a given number of frames.

The grid is general, `H x W` with `H, W >= 1`, because the source keeps
special branches for one-column and one-row grids. The compiled-in 15 x 15
configuration is a set of constants with its own lemmas.

Modules:
- `Grids`: grids as `seq<seq<real>>`, sums, linear combinations, and the
  view of an `array2<real>` as a grid.
- `Stability`: parameters, the gate, the mesh ratio and the retention
  coefficient.
- `Diffusion`: neighbour selection, the cell update, the step as a value
  and as an in-place sweep, and the energy, sign and fixed-point theorems.
- `InitialField`: the starting field as a value and the loops that write it.
- `Bookkeeping`: copy, sum, deviation and clamp.
- `Config`: the compiled-in constants.
- `Render`: the glyph ladder.
- `Simulation`: `main` as `Run`, its frames, and energy over whole runs.
- `AsWritten`: the neighbour index as the source writes it, against the corrected one.

Three details of the code shape the model:
- The reported starting energy is `sumArray` of the clamped starting field
  (main.c:87-88).
- The deviation is `fabs((sum - e0) / e0)` (main.c:282), that is `|sum - e0| / |e0|`.
  This is the same as `|sum - e0| / e0` only when `e0 > 0`.
- The clamp of `printArray` writes into the simulated field itself
  (main.c:121, 220). Each
  frame therefore steps the clamped field (`Simulation.Frame`).

## Model

| member | source | states |
|---|---|---|
| Stability.IsStable | main.c:48-52 | the gate holds exactly when `4 alpha dt < h^2`, the division-free form of the strict `dt < h^2/(4 alpha)` |
| Stability.Rate | main.c:198-201 | the mesh ratio is positive and satisfies `r * h^2 == alpha * dt` |
| Stability.Retention | main.c:203 | `coefficient` equals `1 - 4 * Rate` |
| Stability.StableIffPositiveRetention | main.c:48-52 | the gate holds iff the rate is below 1/4, iff `coefficient` is positive |
| Stability.EqualCaseIsUnstable | main.c:48-52 | when `dt == h^2/(4 alpha)` the gate fails, so `main` returns 1 |
| Config.SourceIsStable | main.c:11-25 | the compiled-in parameters pass the gate, with mesh ratio 0.004 |
| Config.SourcesOnGrid | main.c:20-23 | both point sources lie on the 15 x 15 grid, at (7, 3) and (7, 11) |
| InitialField.BaseTemp | main.c:58-82 | before the sources are written, a one-column or one-row grid holds the start temperature everywhere; otherwise column 0 holds the start temperature, column W-1 the end temperature and every other column the ambient one |
| InitialField.StartCell | main.c:84-85 | the second source's cell holds its temperature, the first source's cell holds its own unless the second overwrote it, and every other cell holds `BaseTemp` |
| InitialField.StartField | main.c:58-85 | the starting field is an `H x W` grid |
| InitialField.StartFieldLayout | main.c:71-85 | on a grid at least 2 x 2: column 0 holds the start temperature, column W-1 the end temperature, all other columns the ambient temperature; the source cells hold their values, and the second source wins if the two coincide |
| InitialField.DegenerateStartField | main.c:60-68 | on a one-column or one-row grid every non-source cell holds the start temperature |
| InitialField.StartFieldNonnegative | main.c:58-85 | when no configured temperature is negative, no starting cell is negative |
| InitialField.BuildStartField | main.c:58-85 | the nested loops plus the two source writes leave the buffer equal to `StartField` |
| Diffusion.Before | main.c:155-168 | the left/above index stays on the axis; it is `k - 1`, or `k` itself at the first position |
| Diffusion.After | main.c:155-168 | the right/below index stays on the axis; it is `k + 1`, or `k` itself at the last position |
| Diffusion.Left | main.c:155-190 | the left reading is the cell itself in column 0, the cell to its left otherwise, and 0 on a one-column grid |
| Diffusion.Right | main.c:155-190 | the right reading is the cell itself in the last column, the cell to its right otherwise, and 0 on a one-column grid |
| Diffusion.Above | main.c:170-195 | the above reading is the cell itself in row 0, the cell above otherwise, and 0 on a one-row grid |
| Diffusion.Below | main.c:170-195 | the below reading is the cell itself in the last row, the cell below otherwise, and 0 on a one-row grid |
| Diffusion.NeighbourTotal | main.c:154-195 | on a grid at least 2 x 2 the total is four on-grid cells, the above/below and left/right indices reflected at the edges; on a one-column grid only above and below count, on a one-row grid only left and right |
| Diffusion.UpdateCell | main.c:203-207 | the new value: `keep` times the cell plus `rate` times its neighbour total; it carries no contract of its own, its meaning is stated by `UpdateIsEulerStep`, `CellUpdate` and `StepAt` |
| Diffusion.Driver | main.c:198-201 | `dTi_dt`, the neighbour total divided by `h^2` then multiplied by `alpha` and `dt`, equals the mesh ratio times that total |
| Diffusion.WeightsOf | main.c:198-203 | the source's weights are consistent (`keep == 1 - 4 rate`) with a positive rate, and the gate holds iff the rate is below 1/4, iff `keep > 0` |
| Diffusion.UpdateIsEulerStep | main.c:198-207 | the update is the old value plus the rate times the discrete Laplacian (neighbour total minus four times the cell) |
| Diffusion.Step | main.c:151-209 | a sweep as a value keeps the grid's shape; its cells are given by `StepAt` |
| Diffusion.Iterate | main.c:118-209 | `n` sweeps without the clamp keep the grid's shape; its energy and sign are stated by `IterateConservesEnergy` and `IteratePreservesNonnegative` |
| Diffusion.StepAt | main.c:151-209 | every cell of a step is the update of that cell, computed from the old grid alone |
| Diffusion.StepIsCombination | main.c:151-209 | a step is `keep` times the field plus `rate` times the field of neighbour totals |
| Diffusion.Sweep | main.c:151-209 | after the sweep, `next` is the step of `cur` under the source's weights, and `cur` is unchanged |
| Diffusion.SweepRow | main.c:152-208 | one pass of the inner loop sets row `i` of `next` to its updates and leaves every other row unchanged |
| Diffusion.CellUpdate | main.c:197-207 | `coefficient * cur + dTi_dt`, from the four readings the sweep makes, is the cell's update |
| Diffusion.ReflectedPairsCountTwice | main.c:155-184 | with reflecting ends, the before and after readings along an axis add up to twice the axis total |
| Diffusion.RowNeighbourEnergy | main.c:154-195 | a row's neighbour totals add up to `PairWeight(W)` times the row plus the rows above and below |
| Diffusion.VerticalPairSumsTotal | main.c:170-195 | over all rows, the above and below readings add up to `PairWeight(H)` times the grid total |
| Diffusion.NeighbourEnergy | main.c:154-195 | the neighbour totals of a grid add up to `PairWeight(W) + PairWeight(H)` times its total, which is four times it on a grid at least 2 x 2 |
| Diffusion.StepEnergy | main.c:151-209 | on every grid shape, the energy after a step is `keep * E + rate * (PairWeight(W) + PairWeight(H)) * E` |
| Diffusion.StepConservesEnergy | main.c:151-209 | on a grid at least 2 x 2 with consistent weights, a step keeps the total `sumArray` measures |
| Diffusion.IterateConservesEnergy | main.c:151-209 | so do any number of steps |
| Diffusion.DegenerateStepLosesEnergy | main.c:186-195 | on a one-column or one-row grid with positive total, a step with a positive rate strictly loses energy, because the zeroed pair acts as a cold wall |
| Diffusion.StepPreservesNonnegative | main.c:203-207 | with non-negative `keep` and `rate`, a field without negative cells steps to one without negative cells |
| Diffusion.UpdateNonnegative | main.c:203-207 | the update of a cell of a non-negative field is non-negative when `keep` and `rate` are |
| Diffusion.IteratePreservesNonnegative | main.c:203-207 | so are any number of steps |
| Diffusion.UniformIsFixedPoint | main.c:198-207 | on a grid at least 2 x 2 with consistent weights, a field of one constant temperature is unchanged by a step |
| Diffusion.ZeroIsFixedPoint | main.c:198-207 | the all-zero field stays all-zero on every grid shape |
| Diffusion.PointSourceSpreads | main.c:198-207 | a single interior hot node under the bound cools but stays positive, and each of its four neighbours warms to `rate * v` |
| Diffusion.IterateAdditive | main.c:142-209 | `m` steps followed by `n` steps are `m + n` steps: the sweep depends on the snapshot alone |
| Grids.GridSum | main.c:294-304 | the total of all cells, row by row; it carries no contract of its own, `SumArray` ties the C loop to it |
| Grids.GridSumNonnegative | main.c:294-304 | a field with no negative cell has a non-negative total |
| Bookkeeping.CopyArray | main.c:272-278 | the target ends equal to the source, cell for cell, and the source is unchanged |
| Bookkeeping.SumArray | main.c:294-304 | the accumulated value is the total of all cells |
| Bookkeeping.Deviation | main.c:282 | the deviation is non-negative, times `|e0|` it is `|sum - e0|`, and it is zero exactly when `sum == e0` |
| Bookkeeping.ClampCell | main.c:220 | a negative cell becomes 0 and any other cell is kept |
| Bookkeeping.Clamp | main.c:217-220 | every cell of the clamped field is its clamped value and the shape is kept |
| Bookkeeping.ClampNegatives | main.c:217-220 | after the loops, the buffer is the clamp of its old contents |
| Bookkeeping.ClampIsNonnegative | main.c:220 | no cell is negative after the clamp |
| Bookkeeping.ClampFixesExactlyNonnegative | main.c:220 | the clamp leaves a field unchanged exactly when it has no negative cell |
| Bookkeeping.ClampIdempotent | main.c:220 | clamping twice is clamping once |
| Bookkeeping.ClampAddsEnergy | main.c:220 | the clamp never lowers the total, and it strictly raises it when it changes a cell |
| Render.HeatGlyph | main.c:306-325 | the glyph is 'E' exactly when the value is below zero |
| Render.GlyphMonotone | main.c:313-324 | a hotter value never gets a colder rung of the ladder |
| Render.ZeroGlyphUnreachable | main.c:309-321 | with the compiled-in constants the average density is below 1, so '0' is never returned |
| Render.GlyphAlphabet | main.c:29 | the glyph is one of the table's seven or `#`, `0`, `x`, `.`, `E` |
| Simulation.Frame | main.c:118-209 | a frame (clamp while printing, then sweep) keeps the grid's shape |
| Simulation.Evolve | main.c:118-209 | `a_newField` at the top of frame `n` keeps the grid's shape; `EvolveIsIterate` ties it to plain sweeps |
| Simulation.Opening | main.c:87-97 | the field the loop starts from is `H x W` and has no negative cell, whatever the configured temperatures |
| Simulation.Readings | main.c:121-125 | the `k`-th reported energy is the total of the clamped field at the top of frame `k` |
| Simulation.Run | main.c:43-213 | `main` returns 1 exactly when the gate fails, before any field exists; otherwise it returns 0, the energy of the clamped starting field, and the energy of every frame |
| Simulation.Prepare | main.c:56-97 | the new field holds the clamped starting field, and the reported initial energy is its total |
| Simulation.RunFrame | main.c:118-209 | one loop pass reports the total of the clamped field, leaves that clamped field in the snapshot `a_curField`, and leaves in `a_newField` the frame of its old contents |
| Simulation.FrameOfNonnegative | main.c:220 | on a field without negative cells a frame is a plain step |
| Simulation.EvolveIsIterate | main.c:118-220 | with non-negative weights and a non-negative start, the clamp never fires, and the frames are exactly the sweeps |
| Simulation.SweepPreservesNonnegative | main.c:48-207 | if the gate passed, a sweep of a non-negative field leaves no negative cell |
| Simulation.SweepConservesEnergy | main.c:151-209 | on a grid at least 2 x 2, a sweep keeps the total for any valid parameters |
| Simulation.FramesKeepEnergy | main.c:118-125 | if the gate passed, every frame of a grid at least 2 x 2 reports the starting energy, whatever the configured temperatures, since the starting field is clamped before it is measured |
| Simulation.NoReportedDrift | main.c:280-282 | under the same conditions, with the second source on the grid and above zero, the starting energy is positive and every reported deviation is 0 |
| Simulation.SourceRunHasNoDrift | main.c:7-26 | in the compiled-in run the gate passes, the starting energy is positive, and every frame reports zero deviation in exact arithmetic |
| AsWritten.SourceAfter | main.c:155-157 | the right/below index as written (see Findings) |
| AsWritten.SourceAfterLeavesOneNodeAxis | main.c:155-157 | on a one-node axis the as-written index at position 0 is 1, outside the axis |
| AsWritten.SourceAfterInRange | main.c:155-168 | the as-written index stays on the axis exactly when the axis has at least two nodes |
| AsWritten.SourceAfterAgrees | main.c:155-168 | on axes of two or more nodes, including the compiled-in grid, the as-written index equals `Diffusion.After` |

## Left out

- IEEE-754 single precision: every quantity is a `real`. Conservation, the
  fixed points and zero drift therefore hold exactly in the model. They do
  not hold bit for bit in `float`, which is what the clamp at main.c:220
  and the drift report are there for.
- `printf` output, the frame layout of `printArray`, `printRawArray`, the
  `round(sum)` display, `system("cls")`, `Sleep(SIM_TIME_DELAY_MILLI)`
  and the greeting: terminal I/O and pacing. `printArray` is modelled only
  for its clamp, `showArrayStats` only for its deviation, and
  `heatVisualsReturn` as a function.
- The `while (time < FINAL_TIME)` condition and the `time` and
  `frameCount` counters (main.c:47, 112, 118, 145, 148). How many frames run
  depends on adding `0.04f` in `float`, so `Simulation.Run` takes the
  frame count as a parameter.
- The deviation for a zero starting energy: the C code divides by zero
  there, and `Bookkeeping.Deviation` requires `e0 != 0`.
- The work arrays of main.c:91 and main.c:96 are declared
  `[NODES_X][NODES_Y]` but used as `[NODES_Y][NODES_X]`. The model
  allocates `H x W` buffers; the two agree because the compiled-in grid is
  square.
- main.c:97 copies the starting field into `a_newField` a second time
  instead of into `a_curField`. `Simulation.Prepare` repeats the copy as
  written. This is harmless, because main.c:142 fills `a_curField` before
  its first read.
- The point-source positions: the model takes them as parameters, and
  requires them to lie on the grid. The compiled-in positions `(H/2, 3)`
  and `(H/2, W-4)` lie on the grid only when `W >= 4`; `Config.SourcesOnGrid`
  shows that they do for 15 x 15.
- Render.HeatGlyph: the ladder is stated for the compiled-in source
  temperatures and grid size, not for arbitrary constants.
- Diffusion.Sweep: it reads a neighbour through the corrected index
  `Diffusion.After`. On a one-column or one-row grid the C code instead
  reads outside the array before zeroing the value; see Findings.

## Findings

| source | as written | input that shows it | evidently intended | confidence | as-written member | corrected member |
|---|---|---|---|---|---|---|
| main.c:155-157 | The right neighbour is `a_curField[i][j+1]` whenever `j == 0`, because the first column is tested before the last. On a one-column grid that reads column 1 of a row that has one node. main.c:171-173 does the same for the row below on a one-row grid. main.c:187-195 zeroes the value afterwards, but the read is already outside the array, and past its end for the last row. | `NODES_X = 1`, any `i`, `j = 0` | A missing neighbour is never read: on a one-node axis the position is both first and last, so the last-position test should come first. | not executed | AsWritten.SourceAfter, AsWritten.SourceAfterLeavesOneNodeAxis | Diffusion.After |
