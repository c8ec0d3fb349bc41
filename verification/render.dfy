/** `heatVisualsReturn` (main.c:306-325): the glyph `printArray` shows for
    a temperature, from a descending ladder of thresholds. */
module Render {
  import opened Config

  /** The look-up table `heat_visuals` of main.c:29, hottest first. */
  const HeatVisuals: seq<char> := ['7', '6', '5', '4', '3', '2', '1']

  /** `maxValue`: the mean of the two source temperatures. */
  function MaxValue(): real {
    (PointOneTemp + PointTwoTemp) / 2.0
  }

  /** `averageEnergyDensity`: the sources' heat spread over every node. */
  function AverageDensity(): real {
    (PointOneTemp + PointTwoTemp) / ((NodesX * NodesY) as real)
  }

  /** The ladder of main.c:313-324, tested top down. */
  function HeatGlyph(v: real): (c: char)
    ensures c == 'E' <==> v < 0.0
  {
    if v > MaxValue() / 2.0 then HeatVisuals[0]
    else if v > MaxValue() / 20.0 then HeatVisuals[1]
    else if v > MaxValue() / 40.0 then HeatVisuals[2]
    else if v > MaxValue() / 60.0 then HeatVisuals[3]
    else if v > MaxValue() / 80.0 then HeatVisuals[4]
    else if v > MaxValue() / 90.0 then HeatVisuals[5]
    else if v > MaxValue() / 95.0 then HeatVisuals[6]
    else if v > AverageDensity() then '#'
    else if v >= 1.0 then '0'
    else if v >= 0.5 then 'x'
    else if v >= 0.0 then '.'
    else 'E'
  }

  /** The rung of a glyph on the ladder, coldest first. */
  function Rung(c: char): nat {
    if c == 'E' then 0
    else if c == '.' then 1
    else if c == 'x' then 2
    else if c == '0' then 3
    else if c == '#' then 4
    else if c == '1' then 5
    else if c == '2' then 6
    else if c == '3' then 7
    else if c == '4' then 8
    else if c == '5' then 9
    else if c == '6' then 10
    else if c == '7' then 11
    else 0
  }

  /** A hotter cell never shows a colder glyph. */
  lemma {:induction false} GlyphMonotone(v: real, u: real)
    requires v <= u
    ensures Rung(HeatGlyph(v)) <= Rung(HeatGlyph(u))
  {
  }

  /** With the compiled-in constants the average density 200/225 lies
      below 1, so every value the '0' rung would take is caught by '#'
      first: '0' is never shown. */
  lemma {:induction false} ZeroGlyphUnreachable(v: real)
    ensures HeatGlyph(v) != '0'
  {
    assert AverageDensity() < 1.0;
  }

  /** The glyph always comes from the ladder's alphabet. */
  lemma {:induction false} GlyphAlphabet(v: real)
    ensures HeatGlyph(v) in HeatVisuals + ['#', '0', 'x', '.', 'E']
  {
  }
}
