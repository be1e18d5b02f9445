/**
 * The local compute phase of `main` (mandel.c:124-133): each worker walks its own rows
 * and all columns, calls `mandelbrot` and stores the remapped count in its dense local
 * block `res_parcial`, laid out row-major.
 */
module Compute {
  import opened FlatIndex
  import opened Escape

  /** Sentinel remap: a count that reached the cap means "did not escape" and is stored as 0. */
  function Remap(k: int, maxIter: int): int
  {
    if k >= maxIter then 0 else k
  }

  /** The value the image holds for pixel (row i, column j). */
  function Pixel(bounded: Oracle, i: int, j: int, maxIter: int): int
    requires maxIter >= 1
  {
    Remap(Iterations(bounded, i, j, maxIter), maxIter)
  }

  /**
   * Every stored value lies in [0, maxIter - 1]; it is non-zero exactly when the point
   * escaped before the cap, and then it is the step at which it escaped.
   */
  lemma PixelRange(bounded: Oracle, i: int, j: int, maxIter: int)
    requires maxIter >= 1
    ensures 0 <= Pixel(bounded, i, j, maxIter) <= maxIter - 1
    ensures Pixel(bounded, i, j, maxIter) != 0 <==> exists s :: 1 <= s < maxIter && !bounded(i, j, s)
    ensures Pixel(bounded, i, j, maxIter) != 0 ==>
      Pixel(bounded, i, j, maxIter) == Iterations(bounded, i, j, maxIter)
      && !bounded(i, j, Pixel(bounded, i, j, maxIter))
  {
    EscapesIff(bounded, i, j, maxIter);
  }

  /** Flat cell e of the block whose first row is `start`: pixel (start + e / w, e % w). */
  function BlockCell(bounded: Oracle, start: int, w: int, maxIter: int, e: int): int
    requires w >= 1 && maxIter >= 1
  {
    Pixel(bounded, start + e / w, e % w, maxIter)
  }

  /** The `nrows * w` values a worker whose rows begin at `start` computes, row-major. */
  function LocalBlock(bounded: Oracle, start: int, nrows: nat, w: int, maxIter: int): (b: seq<int>)
    requires w >= 1 && maxIter >= 1
    ensures |b| == nrows * w
  {
    seq(nrows * w, e => BlockCell(bounded, start, w, maxIter, e))
  }

  /** Cell (r, j) of the local block holds the pixel of global row start + r, column j. */
  lemma LocalBlockAt(bounded: Oracle, start: int, nrows: nat, w: int, maxIter: int, r: int, j: int)
    requires w >= 1 && maxIter >= 1
    requires 0 <= r < nrows && 0 <= j < w
    ensures 0 <= r * w + j < nrows * w
    ensures LocalBlock(bounded, start, nrows, w, maxIter)[r * w + j] == Pixel(bounded, start + r, j, maxIter)
  {
    CellInRows(r, j, w, nrows);
    CellOfIndex(r, j, w);
  }

  /** Operations counted by the calls for columns 0..j-1 of global row i. */
  function RowOps(bounded: Oracle, i: int, maxIter: int, j: nat): int
    requires maxIter >= 1
  {
    if j == 0 then 0 else RowOps(bounded, i, maxIter, j - 1) + Ops(Iterations(bounded, i, j - 1, maxIter))
  }

  /** Operations counted by the calls for the first r rows of a block of width w starting at row start. */
  function BlockOps(bounded: Oracle, start: int, w: nat, maxIter: int, r: nat): int
    requires maxIter >= 1
  {
    if r == 0 then 0 else BlockOps(bounded, start, w, maxIter, r - 1) + RowOps(bounded, start + r - 1, maxIter, w)
  }

  /** j calls count at least 14 operations each and at most Ops(maxIter) each. */
  lemma {:induction false} RowOpsBounds(bounded: Oracle, i: int, maxIter: int, j: nat)
    requires maxIter >= 1
    ensures 14 * j <= RowOps(bounded, i, maxIter, j) <= j * Ops(maxIter)
  {
    if j > 0 {
      RowOpsBounds(bounded, i, maxIter, j - 1);
      assert j * Ops(maxIter) == (j - 1) * Ops(maxIter) + Ops(maxIter);
    }
  }

  /** A block of r rows of w cells counts between 14 and Ops(maxIter) operations per cell. */
  lemma {:induction false} BlockOpsBounds(bounded: Oracle, start: int, w: nat, maxIter: int, r: nat)
    requires maxIter >= 1
    ensures 14 * (r * w) <= BlockOps(bounded, start, w, maxIter, r) <= r * w * Ops(maxIter)
  {
    if r > 0 {
      BlockOpsBounds(bounded, start, w, maxIter, r - 1);
      RowOpsBounds(bounded, start + r - 1, maxIter, w);
      Distrib(r - 1, 1, w);
      Distrib((r - 1) * w, w, Ops(maxIter));
    }
  }

  /**
   * The nested pixel loop of `main` for one worker whose rows are start..start+nrows-1:
   * cell (i - start, j) of `resParcial` receives the remapped `mandelbrot(i, j)`, nothing at
   * or beyond nrows * w is touched, and the counter grows by the operations of every call.
   */
  method ComputeLocalBlock(bounded: Oracle, maxIter: int, w: int, start: int, nrows: nat, resParcial: array<int>, flops: int)
    returns (flopsOut: int)
    requires w >= 1 && maxIter >= 1
    requires nrows * w <= resParcial.Length
    modifies resParcial
    ensures resParcial[..nrows * w] == LocalBlock(bounded, start, nrows, w, maxIter)
    ensures forall e :: nrows * w <= e < resParcial.Length ==> resParcial[e] == old(resParcial[e])
    ensures flopsOut == flops + BlockOps(bounded, start, w, maxIter, nrows)
  {
    flopsOut := flops;
    ghost var done: nat := 0;
    for i := start to start + nrows
      invariant done == (i - start) * w <= nrows * w
      invariant forall e :: 0 <= e < done ==> resParcial[e] == BlockCell(bounded, start, w, maxIter, e)
      invariant forall e :: nrows * w <= e < resParcial.Length ==> resParcial[e] == old(resParcial[e])
      invariant flopsOut == flops + BlockOps(bounded, start, w, maxIter, i - start)
    {
      Distrib(i - start, 1, w);
      ScaleMono(i - start + 1, nrows, w);
      flopsOut := ComputeRow(bounded, maxIter, w, start, i, done, resParcial, flopsOut);
      done := done + w;
    }
    assert resParcial[..nrows * w] == LocalBlock(bounded, start, nrows, w, maxIter);
  }

  /**
   * The inner loop over the columns of global row i, the (i - start)-th row of the block,
   * whose first cell is at flat index `done`: it extends the filled prefix of `resParcial`
   * by one row of w cells.
   */
  method ComputeRow(bounded: Oracle, maxIter: int, w: int, start: int, i: int, ghost done: nat, resParcial: array<int>, flops: int)
    returns (flopsOut: int)
    requires w >= 1 && maxIter >= 1 && start <= i
    requires done == (i - start) * w && done + w <= resParcial.Length
    requires forall e :: 0 <= e < done ==> resParcial[e] == BlockCell(bounded, start, w, maxIter, e)
    modifies resParcial
    ensures forall e :: 0 <= e < done + w ==> resParcial[e] == BlockCell(bounded, start, w, maxIter, e)
    ensures forall e :: done + w <= e < resParcial.Length ==> resParcial[e] == old(resParcial[e])
    ensures flopsOut == flops + RowOps(bounded, i, maxIter, w)
  {
    flopsOut := flops;
    for j := 0 to w
      invariant forall e :: 0 <= e < done + j ==> resParcial[e] == BlockCell(bounded, start, w, maxIter, e)
      invariant forall e :: done + w <= e < resParcial.Length ==> resParcial[e] == old(resParcial[e])
      invariant flopsOut == flops + RowOps(bounded, i, maxIter, j)
    {
      flopsOut := ComputePixel(bounded, maxIter, w, start, i, j, done + j, resParcial, flopsOut);
    }
  }

  /**
   * The body of the pixel loop: `mandelbrot(i, j, &flops)`, then 0 or its count stored at
   * cell (i - start, j) of the block, which is at flat index n.
   */
  method ComputePixel(bounded: Oracle, maxIter: int, w: int, start: int, i: int, j: int, ghost n: nat,
                      resParcial: array<int>, flops: int)
    returns (flopsOut: int)
    requires w >= 1 && maxIter >= 1 && start <= i && 0 <= j < w
    requires n == (i - start) * w + j && n < resParcial.Length
    modifies resParcial
    ensures resParcial[n] == BlockCell(bounded, start, w, maxIter, n)
    ensures forall e :: 0 <= e < resParcial.Length && e != n ==> resParcial[e] == old(resParcial[e])
    ensures flopsOut == flops + Ops(Iterations(bounded, i, j, maxIter))
  {
    var k;
    k, flopsOut := Mandelbrot(i, j, flops, bounded, maxIter);
    CellOfIndex(i - start, j, w);
    var v := if k >= maxIter then 0 else k;
    resParcial[(i - start) * w + j] := v;
  }
}
