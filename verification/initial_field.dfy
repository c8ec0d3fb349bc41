/** The starting field of main.c:58-85: a cold-to-cold bar laid along the
    rows, with two point sources written over it. */
module InitialField {
  import opened Grids

  /** The temperatures of the first column, of the interior and of the
      last column (`BAR_L_START_TEMP`, `BAR_AMBIENT_TEMP`,
      `BAR_L_END_TEMP`). */
  datatype Boundary = Boundary(start: real, ambient: real, end: real)

  /** A point source: the cell it overwrites and the value it gets. */
  datatype HeatSource = HeatSource(row: nat, col: nat, temp: real)

  /** The source lies on a `w x h` grid. */
  predicate OnGrid(s: HeatSource, w: nat, h: nat) {
    s.row < h && s.col < w
  }

  /** The value the nested loops of main.c:58-82 give cell `(i, j)`, in
      the order they test: a one-column grid, a one-row grid, the first
      column, the last column, the rest. */
  function BaseTemp(b: Boundary, w: nat, h: nat, j: nat): (t: real)
    ensures w == 1 || h == 1 || j == 0 ==> t == b.start
    ensures w >= 2 && h >= 2 && j == w - 1 ==> t == b.end
    ensures w >= 2 && h >= 2 && 0 < j < w - 1 ==> t == b.ambient
    ensures t == b.start || t == b.ambient || t == b.end
  {
    if w == 1 then b.start
    else if h == 1 then b.start
    else if j == 0 then b.start
    else if j == w - 1 then b.end
    else b.ambient
  }

  /** The value cell `(i, j)` holds once both sources are written
      (main.c:84-85): the second source wins when the two coincide. */
  function StartCell(b: Boundary, w: nat, h: nat, one: HeatSource, two: HeatSource, i: nat, j: nat): (v: real)
    ensures i == two.row && j == two.col ==> v == two.temp
    ensures i == one.row && j == one.col && !(i == two.row && j == two.col) ==> v == one.temp
    ensures !IsSourceCell(one, two, i, j) ==> v == BaseTemp(b, w, h, j)
  {
    if i == two.row && j == two.col then two.temp
    else if i == one.row && j == one.col then one.temp
    else BaseTemp(b, w, h, j)
  }

  /** The whole starting field. */
  function StartField(b: Boundary, w: nat, h: nat, one: HeatSource, two: HeatSource): (f: Grid)
    requires w >= 1 && h >= 1
    ensures IsGrid(f) && Width(f) == w && Height(f) == h
  {
    seq(h, i requires 0 <= i < h => seq(w, j requires 0 <= j < w => StartCell(b, w, h, one, two, i, j)))
  }

  /** Is `(i, j)` one of the two source cells? */
  predicate IsSourceCell(one: HeatSource, two: HeatSource, i: nat, j: nat) {
    (i == one.row && j == one.col) || (i == two.row && j == two.col)
  }

  /** On a grid at least two nodes each way: the first column holds the
      start temperature, the last column the end temperature and every
      other column the ambient one, except at the source cells, which
      hold their sources' values. */
  lemma {:induction false} StartFieldLayout(b: Boundary, w: nat, h: nat, one: HeatSource, two: HeatSource)
    requires w >= 2 && h >= 2 && OnGrid(one, w, h) && OnGrid(two, w, h)
    ensures var f := StartField(b, w, h, one, two);
      && f[two.row][two.col] == two.temp
      && ((one.row != two.row || one.col != two.col) ==> f[one.row][one.col] == one.temp)
      && (forall i, j :: 0 <= i < h && 0 <= j < w && !IsSourceCell(one, two, i, j) ==>
            f[i][j] == (if j == 0 then b.start else if j == w - 1 then b.end else b.ambient))
  {
    var f := StartField(b, w, h, one, two);
    forall i, j | 0 <= i < h && 0 <= j < w && !IsSourceCell(one, two, i, j)
      ensures f[i][j] == (if j == 0 then b.start else if j == w - 1 then b.end else b.ambient)
    {
      assert f[i][j] == StartCell(b, w, h, one, two, i, j);
    }
  }

  /** On a one-column or one-row grid every cell but the sources holds the
      start temperature. */
  lemma {:induction false} DegenerateStartField(b: Boundary, w: nat, h: nat, one: HeatSource, two: HeatSource)
    requires w >= 1 && h >= 1 && (w == 1 || h == 1)
    ensures var f := StartField(b, w, h, one, two);
      forall i, j :: 0 <= i < h && 0 <= j < w && !IsSourceCell(one, two, i, j) ==> f[i][j] == b.start
  {
    var f := StartField(b, w, h, one, two);
    forall i, j | 0 <= i < h && 0 <= j < w && !IsSourceCell(one, two, i, j)
      ensures f[i][j] == b.start
    {
      assert f[i][j] == StartCell(b, w, h, one, two, i, j);
    }
  }

  /** No temperature below zero anywhere in the setup gives a starting
      field with no cell below zero. */
  lemma {:induction false} StartFieldNonnegative(b: Boundary, w: nat, h: nat, one: HeatSource, two: HeatSource)
    requires w >= 1 && h >= 1
    requires b.start >= 0.0 && b.ambient >= 0.0 && b.end >= 0.0 && one.temp >= 0.0 && two.temp >= 0.0
    ensures Nonnegative(StartField(b, w, h, one, two))
  {
    var f := StartField(b, w, h, one, two);
    forall i, j | 0 <= i < |f| && 0 <= j < |f[i]|
      ensures f[i][j] >= 0.0
    {
      assert f[i][j] == StartCell(b, w, h, one, two, i, j);
    }
  }

  /** The initialisation loops of main.c:58-85, writing `field` in place. */
  method BuildStartField(field: array2<real>, b: Boundary, one: HeatSource, two: HeatSource)
    requires field.Length0 >= 1 && field.Length1 >= 1
    requires OnGrid(one, field.Length1, field.Length0) && OnGrid(two, field.Length1, field.Length0)
    modifies field
    ensures Cells(field) == StartField(b, field.Length1, field.Length0, one, two)
  {
    var h, w := field.Length0, field.Length1;
    for i := 0 to h
      invariant forall r, c :: 0 <= r < i && 0 <= c < w ==> field[r, c] == BaseTemp(b, w, h, c)
    {
      for j := 0 to w
        invariant forall r, c :: 0 <= r < i && 0 <= c < w ==> field[r, c] == BaseTemp(b, w, h, c)
        invariant forall c :: 0 <= c < j ==> field[i, c] == BaseTemp(b, w, h, c)
      {
        if w == 1 {
          field[i, j] := b.start;
          continue;
        }
        if h == 1 {
          field[i, j] := b.start;
          continue;
        }
        if j == 0 {
          field[i, j] := b.start;
        } else if j == w - 1 {
          field[i, j] := b.end;
        } else {
          field[i, j] := b.ambient;
        }
      }
    }
    field[one.row, one.col] := one.temp;
    field[two.row, two.col] := two.temp;
    SameCells(Cells(field), StartField(b, w, h, one, two));
  }
}
