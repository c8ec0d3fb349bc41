/** The fixed configuration main.c:7-26 compiles in: a 15 x 15 plate,
    cold everywhere but for two point sources of 100 degrees on the middle
    row, stepped every 0.04 s until 600 s. */
module Config {
  import opened Stability
  import opened InitialField

  const NodesX: nat := 15
  const NodesY: nat := 15

  const Alpha: real := 0.00001
  const DeltaSpace: real := 0.01
  const DeltaTime: real := 0.04
  const FinalTime: real := 600.0

  const StartTemp: real := 0.0
  const AmbientTemp: real := 0.0
  const EndTemp: real := 0.0

  const PointOneTemp: real := 100.0
  const PointTwoTemp: real := 100.0

  /** `BAR_P_ONE_LOC` and `BAR_P_TWO_LOC`: row `NODES_Y / 2`, columns 3 and
      `NODES_X - 4`. */
  const PointOne: HeatSource := HeatSource(NodesY / 2, 3, PointOneTemp)
  const PointTwo: HeatSource := HeatSource(NodesY / 2, NodesX - 4, PointTwoTemp)

  const Bar: Boundary := Boundary(StartTemp, AmbientTemp, EndTemp)

  const Source: Params := Params(Alpha, DeltaSpace, DeltaTime)

  /** The compiled-in configuration passes the gate of main.c:48, with a
      mesh ratio of 0.004, far below the bound of 0.25. */
  lemma {:induction false} SourceIsStable()
    ensures Source.Valid() && IsStable(Source)
    ensures Rate(Source) == 0.004
  {
    var r := Rate(Source);
    assert r * (DeltaSpace * DeltaSpace) == Alpha * DeltaTime;
  }

  /** Both sources lie on the 15 x 15 grid, on the middle row, and apart. */
  lemma {:induction false} SourcesOnGrid()
    ensures OnGrid(PointOne, NodesX, NodesY) && OnGrid(PointTwo, NodesX, NodesY)
    ensures PointOne.row == 7 && PointOne.col == 3 && PointTwo.row == 7 && PointTwo.col == 11
  {
  }
}
