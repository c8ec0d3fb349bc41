/** The helpers `main` calls around the sweep: `copyArray`
    (main.c:272-278), `sumArray` (main.c:294-304), the deviation of
    `showArrayStats` (main.c:282) and the negative clamp of `printArray`
    (main.c:220). */
module Bookkeeping {
  import opened Grids

  /** `copyArray`: every cell of `src` is written into `dst`, one cell at
      a time in row order. Both buffers are `H x W`; the copy holds even
      when they are the same buffer. */
  method CopyArray(src: array2<real>, dst: array2<real>)
    requires dst.Length0 == src.Length0 && dst.Length1 == src.Length1
    modifies dst
    ensures Cells(dst) == old(Cells(src))
    ensures Cells(src) == old(Cells(src))
  {
    var h, w := src.Length0, src.Length1;
    for i := 0 to h
      invariant forall r, c :: 0 <= r < h && 0 <= c < w ==> src[r, c] == old(src[r, c])
      invariant forall r, c :: 0 <= r < i && 0 <= c < w ==> dst[r, c] == old(src[r, c])
    {
      for j := 0 to w
        invariant forall r, c :: 0 <= r < h && 0 <= c < w ==> src[r, c] == old(src[r, c])
        invariant forall r, c :: 0 <= r < i && 0 <= c < w ==> dst[r, c] == old(src[r, c])
        invariant forall c :: 0 <= c < j ==> dst[i, c] == old(src[i, c])
      {
        dst[i, j] := src[i, j];
      }
    }
    SameCells(Cells(dst), old(Cells(src)));
    SameCells(Cells(src), old(Cells(src)));
  }

  /** `sumArray`: the cells added in row order into one accumulator,
      which is the total of the field. */
  method SumArray(field: array2<real>) returns (sum: real)
    ensures sum == GridSum(Cells(field))
  {
    ghost var g := Cells(field);
    var h, w := field.Length0, field.Length1;
    sum := 0.0;
    for i := 0 to h
      invariant sum == SumTo(RowSums(g), i)
    {
      for j := 0 to w
        invariant sum == SumTo(RowSums(g), i) + SumTo(g[i], j)
      {
        sum := sum + field[i, j];
      }
    }
  }

  function Abs(x: real): (r: real)
    ensures r >= 0.0
    ensures r == x || r == -x
  {
    if x < 0.0 then -x else x
  }

  /** The relative drift `showArrayStats` reports, `|(sum - e0) / e0|`,
      where `e0` is the energy of the starting field. The C code divides
      by zero for `e0 == 0`; here that case is excluded. */
  function Deviation(sum: real, e0: real): (d: real)
    requires e0 != 0.0
    ensures d >= 0.0
    ensures d * Abs(e0) == Abs(sum - e0)
    ensures d == 0.0 <==> sum == e0
  {
    QuotientMagnitude(sum - e0, e0);
    Abs((sum - e0) / e0)
  }

  /** `|x / e| * |e| == |x|`, and the quotient is zero only for `x == 0`. */
  lemma {:induction false} QuotientMagnitude(x: real, e: real)
    requires e != 0.0
    ensures Abs(x / e) * Abs(e) == Abs(x)
    ensures Abs(x / e) == 0.0 <==> x == 0.0
  {
    var q := x / e;
    assert q * e == x;
    if q < 0.0 && e < 0.0 {
      assert (-q) * (-e) == x;
    } else if q < 0.0 {
      assert (-q) * e == -x;
    } else if e < 0.0 {
      assert q * (-e) == -x;
    }
  }

  /** The clamp of one cell at main.c:220. */
  function ClampCell(v: real): (r: real)
    ensures r >= 0.0
    ensures v < 0.0 ==> r == 0.0
    ensures v >= 0.0 ==> r == v
  {
    if v < 0.0 then 0.0 else v
  }

  /** The field after `printArray`'s clamp: every negative cell set to
      zero, every other cell kept. */
  function Clamp(g: Grid): (r: Grid)
    ensures |r| == |g| && forall i :: 0 <= i < |r| ==> |r[i]| == |g[i]|
    ensures forall i, j :: 0 <= i < |g| && 0 <= j < |g[i]| ==> r[i][j] == ClampCell(g[i][j])
  {
    seq(|g|, i requires 0 <= i < |g| => seq(|g[i]|, j requires 0 <= j < |g[i]| => ClampCell(g[i][j])))
  }

  /** The loops of `printArray` (main.c:217-220) as far as they change the
      field: each negative cell is overwritten with zero in place. */
  method ClampNegatives(field: array2<real>)
    modifies field
    ensures Cells(field) == Clamp(old(Cells(field)))
  {
    var h, w := field.Length0, field.Length1;
    for i := 0 to h
      invariant forall r, c :: 0 <= r < i && 0 <= c < w ==> field[r, c] == ClampCell(old(field[r, c]))
      invariant forall r, c :: i <= r < h && 0 <= c < w ==> field[r, c] == old(field[r, c])
    {
      for j := 0 to w
        invariant forall r, c :: 0 <= r < i && 0 <= c < w ==> field[r, c] == ClampCell(old(field[r, c]))
        invariant forall r, c :: i < r < h && 0 <= c < w ==> field[r, c] == old(field[r, c])
        invariant forall c :: 0 <= c < j ==> field[i, c] == ClampCell(old(field[i, c]))
        invariant forall c :: j <= c < w ==> field[i, c] == old(field[i, c])
      {
        if field[i, j] < 0.0 {
          field[i, j] := 0.0;
        }
      }
    }
    SameCells(Cells(field), Clamp(old(Cells(field))));
  }

  /** After the clamp no cell is negative. */
  lemma {:induction false} ClampIsNonnegative(g: Grid)
    ensures Nonnegative(Clamp(g))
  {
    var r := Clamp(g);
    forall i, j | 0 <= i < |r| && 0 <= j < |r[i]|
      ensures r[i][j] >= 0.0
    {
      assert r[i][j] == ClampCell(g[i][j]);
    }
  }

  /** The clamp changes a field exactly when it has a negative cell. */
  lemma {:induction false} ClampFixesExactlyNonnegative(g: Grid)
    ensures Clamp(g) == g <==> Nonnegative(g)
  {
    var r := Clamp(g);
    if Nonnegative(g) {
      SameCells(r, g);
    } else {
      var i, j :| 0 <= i < |g| && 0 <= j < |g[i]| && g[i][j] < 0.0;
      assert r[i][j] == 0.0;
    }
  }

  /** Applying the clamp twice is applying it once. */
  lemma {:induction false} ClampIdempotent(g: Grid)
    ensures Clamp(Clamp(g)) == Clamp(g)
  {
    ClampIsNonnegative(g);
    ClampFixesExactlyNonnegative(Clamp(g));
  }

  /** The clamp can only add energy, and it adds some whenever it changes
      a cell. */
  lemma {:induction false} ClampAddsEnergy(g: Grid)
    requires IsGrid(g)
    ensures GridSum(g) <= GridSum(Clamp(g))
    ensures !Nonnegative(g) ==> GridSum(g) < GridSum(Clamp(g))
  {
    var r := Clamp(g);
    forall i | 0 <= i < |g|
      ensures Sum(g[i]) <= Sum(r[i])
      ensures (exists k :: 0 <= k < |g[i]| && g[i][k] < r[i][k]) ==> Sum(g[i]) < Sum(r[i])
    {
      SumMonotone(g[i], r[i]);
    }
    SumMonotone(RowSums(g), RowSums(r));
    if !Nonnegative(g) {
      var i, j :| 0 <= i < |g| && 0 <= j < |g[i]| && g[i][j] < 0.0;
      assert g[i][j] < r[i][j];
      assert RowSums(g)[i] < RowSums(r)[i];
    }
  }
}
