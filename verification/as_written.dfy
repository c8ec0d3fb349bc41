/** The neighbour index the sweep reads after a position, as main.c
    writes it, against the corrected `Diffusion.After` the model uses. */
module AsWritten {
  import opened Diffusion

  /** The column main.c:155-168 reads for `aveTempRight` (and the row
      main.c:171-184 reads for `aveTempBelow`): the first position is
      tested before the last, so on a one-node axis position 0 reads
      position 1. */
  function SourceAfter(n: nat, k: nat): nat
    requires k < n
  {
    if k == 0 then k + 1
    else if k == n - 1 then k
    else k + 1
  }

  /** On a one-column grid the read at `j == 0` is of column 1, past the
      end of a row of one node (the value is then zeroed by main.c:187-190,
      but the read itself is out of bounds). */
  lemma {:induction false} SourceAfterLeavesOneNodeAxis()
    ensures SourceAfter(1, 0) == 1
  {
  }

  /** The as-written index stays on the axis exactly when the axis has at
      least two nodes. */
  lemma {:induction false} SourceAfterInRange(n: nat, k: nat)
    requires k < n
    ensures SourceAfter(n, k) < n <==> n >= 2
  {
  }

  /** On every axis of at least two nodes, which includes the compiled-in
      15 x 15 grid, the as-written index is the corrected one: the
      correction changes nothing there. */
  lemma {:induction false} SourceAfterAgrees(n: nat, k: nat)
    requires 2 <= n && k < n
    ensures SourceAfter(n, k) == After(n, k)
  {
  }
}
