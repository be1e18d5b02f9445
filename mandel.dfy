/**
 * One run of `main` (mandel.c:92-143), with the worker processes executed one after the
 * other: every rank fills the same partition tables, computes its own block of rows, and
 * the coordinator gathers the blocks into the full image `vres`.
 */
module Mandel {
  import opened FlatIndex
  import opened Partition
  import opened Escape
  import opened Compute
  import opened Gather

  /** The build-time configuration of mandel.c. */
  const XResn: nat := 1024
  const YResn: nat := 1024
  const MaxIterations: int := 1000

  /** The image the coordinator must end up with: pixel (n / w, n % w) at flat index n. */
  function Image(bounded: Oracle, h: nat, w: int, maxIter: int): (img: seq<int>)
    requires w >= 1 && maxIter >= 1
    ensures |img| == h * w
  {
    seq(h * w, n => Pixel(bounded, n / w, n % w, maxIter))
  }

  /** `vres[i*X_RESN + j]` holds pixel (i, j). */
  lemma ImageAt(bounded: Oracle, h: nat, w: int, maxIter: int, i: int, j: int)
    requires w >= 1 && maxIter >= 1 && 0 <= i < h && 0 <= j < w
    ensures 0 <= i * w + j < h * w
    ensures Image(bounded, h, w, maxIter)[i * w + j] == Pixel(bounded, i, j, maxIter)
  {
    CellInRows(i, j, w, h);
    CellOfIndex(i, j, w);
  }

  /**
   * Every cell of `vres` lies in exactly one worker's block: the block of the worker that
   * owns its row.
   */
  lemma CellInExactlyOneBlock(h: nat, w: int, p: nat, n: int, q: nat)
    requires w >= 1 && p >= 1 && 0 <= n < h * w && q < p
    ensures n / w < h
    ensures Displ(h, w, p, q) <= n < Displ(h, w, p, q) + Count(h, w, p, q) <==> q == RowOwner(h, p, n / w)
  {
    InScaledRange(n, w, 0, h);
    var i := n / w;
    InScaledRange(n, w, StartRow(h, p, q), Rows(h, p, q));
    if StartRow(h, p, q) <= i < StartRow(h, p, q) + Rows(h, p, q) {
      RowOwnerUnique(h, p, i, q);
    }
  }

  /**
   * Gather correctness, for any number of workers: the cell of worker q's local block that
   * the gather places at index n of `vres` is exactly the image's pixel at n.
   */
  lemma BlockCellIsImageCell(bounded: Oracle, h: nat, w: int, maxIter: int, p: nat, q: nat, n: int)
    requires w >= 1 && maxIter >= 1 && p >= 1 && q < p
    requires Displ(h, w, p, q) <= n < Displ(h, w, p, q) + Count(h, w, p, q)
    ensures 0 <= n < h * w
    ensures 0 <= n - Displ(h, w, p, q) < Rows(h, p, q) * w
    ensures LocalBlock(bounded, StartRow(h, p, q), Rows(h, p, q), w, maxIter)[n - Displ(h, w, p, q)]
         == Image(bounded, h, w, maxIter)[n]
  {
    GatherLayout(h, w, p, q);
    BlockInRowsOfImage(bounded, h, w, maxIter, StartRow(h, p, q), Rows(h, p, q), n - Displ(h, w, p, q), n);
  }

  /** Cell e of a block of r rows starting at row s is cell s * w + e of the image. */
  lemma BlockInRowsOfImage(bounded: Oracle, h: nat, w: int, maxIter: int, s: nat, r: nat, e: int, n: int)
    requires w >= 1 && maxIter >= 1 && 0 <= e < r * w && s * w + r * w <= h * w && n == s * w + e
    ensures 0 <= n < h * w
    ensures LocalBlock(bounded, s, r, w, maxIter)[e] == Image(bounded, h, w, maxIter)[n]
  {
    ShiftByRows(s, e, w);
    MulAtLeast(1, w);
  }

  /** The block rank q of p computes and sends to the gather. */
  function RankBlock(bounded: Oracle, h: nat, w: int, maxIter: int, p: nat, q: nat): seq<int>
    requires w >= 1 && maxIter >= 1 && p >= 1
  {
    LocalBlock(bounded, StartRow(h, p, q), Rows(h, p, q), w, maxIter)
  }

  /** The blocks of ranks 0..k-1, in rank order. */
  function RankBlocks(bounded: Oracle, h: nat, w: int, maxIter: int, p: nat, k: nat): (bs: seq<seq<int>>)
    requires w >= 1 && maxIter >= 1 && p >= 1
    ensures |bs| == k
  {
    if k == 0 then [] else RankBlocks(bounded, h, w, maxIter, p, k - 1) + [RankBlock(bounded, h, w, maxIter, p, k - 1)]
  }

  lemma {:induction false} RankBlocksAt(bounded: Oracle, h: nat, w: int, maxIter: int, p: nat, k: nat, q: nat)
    requires w >= 1 && maxIter >= 1 && p >= 1 && q < k
    ensures RankBlocks(bounded, h, w, maxIter, p, k)[q] == RankBlock(bounded, h, w, maxIter, p, q)
  {
    if q < k - 1 {
      RankBlocksAt(bounded, h, w, maxIter, p, k - 1, q);
    }
  }

  /** The operations rank q of p counts over its block. */
  function RankOps(bounded: Oracle, h: nat, w: int, maxIter: int, p: nat, q: nat): int
    requires w >= 1 && maxIter >= 1 && p >= 1
  {
    BlockOps(bounded, StartRow(h, p, q), w, maxIter, Rows(h, p, q))
  }

  /** Each pixel of a rank's block adds between 14 and Ops(maxIter) to its counter. */
  lemma RankOpsBounds(bounded: Oracle, h: nat, w: int, maxIter: int, p: nat, q: nat)
    requires w >= 1 && maxIter >= 1 && p >= 1
    ensures 14 * Count(h, w, p, q) <= RankOps(bounded, h, w, maxIter, p, q) <= Count(h, w, p, q) * Ops(maxIter)
  {
    BlockOpsBounds(bounded, StartRow(h, p, q), w, maxIter, Rows(h, p, q));
  }

  /** The operation counts of ranks 0..k-1, in rank order. */
  function RanksOps(bounded: Oracle, h: nat, w: int, maxIter: int, p: nat, k: nat): (fs: seq<int>)
    requires w >= 1 && maxIter >= 1 && p >= 1
    ensures |fs| == k
  {
    if k == 0 then [] else RanksOps(bounded, h, w, maxIter, p, k - 1) + [RankOps(bounded, h, w, maxIter, p, k - 1)]
  }

  lemma {:induction false} RanksOpsAt(bounded: Oracle, h: nat, w: int, maxIter: int, p: nat, k: nat, q: nat)
    requires w >= 1 && maxIter >= 1 && p >= 1 && q < k
    ensures RanksOps(bounded, h, w, maxIter, p, k)[q] == RankOps(bounded, h, w, maxIter, p, q)
  {
    if q < k - 1 {
      RanksOpsAt(bounded, h, w, maxIter, p, k - 1, q);
    }
  }

  /** The partition's blocks fit in `vres` and do not overlap, as `MPI_Gatherv` needs. */
  lemma LayoutFitsImage(h: nat, w: int, p: nat)
    requires w >= 1 && p >= 1
    ensures forall q :: 0 <= q < p ==> Displ(h, w, p, q) + Count(h, w, p, q) <= h * w
    ensures forall a, b :: 0 <= a < p && 0 <= b < p && a != b ==>
      Displ(h, w, p, a) + Count(h, w, p, a) <= Displ(h, w, p, b)
      || Displ(h, w, p, b) + Count(h, w, p, b) <= Displ(h, w, p, a)
  {
    forall q | 0 <= q < p
      ensures Displ(h, w, p, q) + Count(h, w, p, q) <= h * w
    {
      GatherLayout(h, w, p, q);
    }
    forall a, b | 0 <= a < p && 0 <= b < p && a != b
      ensures Displ(h, w, p, a) + Count(h, w, p, a) <= Displ(h, w, p, b)
           || Displ(h, w, p, b) + Count(h, w, p, b) <= Displ(h, w, p, a)
    {
      BlocksDisjoint(h, w, p, a, b);
    }
  }

  /**
   * What one rank does before the gather: allocate `res_parcial` with room for
   * h / numprocs + 1 rows, run the pixel loop over its rows, and hand the first
   * `count[rank]` ints to the gather. `flops` is the rank's operation counter.
   */
  method Worker(bounded: Oracle, h: nat, w: int, maxIter: int, numprocs: nat, rank: nat,
                rows: array<int>, startrow: array<int>, count: array<int>)
    returns (payload: seq<int>, flops: int)
    requires w >= 1 && maxIter >= 1 && numprocs >= 1 && rank < numprocs
    requires rows.Length == startrow.Length == count.Length == numprocs
    requires rows[rank] == Rows(h, numprocs, rank) && startrow[rank] == StartRow(h, numprocs, rank)
    requires count[rank] == Count(h, w, numprocs, rank)
    ensures payload == RankBlock(bounded, h, w, maxIter, numprocs, rank)
    ensures flops == RankOps(bounded, h, w, maxIter, numprocs, rank)
  {
    var resParcial := new int[(h / numprocs + 1) * w];
    RowsBalanced(h, numprocs, rank, rank);
    ScaleMono(rows[rank], h / numprocs + 1, w);
    flops := ComputeLocalBlock(bounded, maxIter, w, startrow[rank], rows[rank], resParcial, 0);
    payload := resParcial[..count[rank]];
  }

  /**
   * Gather correctness, whatever the number of workers: once every rank's payload sits at
   * its displacement in `vres`, as `MPI_Gatherv` leaves it, `vres` is the image.
   */
  lemma PlacedBlocksFormImage(bounded: Oracle, h: nat, w: int, maxIter: int, p: nat,
                              payloads: seq<seq<int>>, count: array<int>, displ: array<int>, vres: array<int>)
    requires w >= 1 && maxIter >= 1 && p >= 1 && vres.Length == h * w
    requires payloads == RankBlocks(bounded, h, w, maxIter, p, p)
    requires count.Length == displ.Length == p
    requires forall q :: 0 <= q < p ==> count[q] == Count(h, w, p, q) && displ[q] == Displ(h, w, p, q)
    requires forall q, n :: 0 <= q < p && InBlock(count, displ, q, n) ==>
      0 <= n < vres.Length && 0 <= n - displ[q] < |payloads[q]| && vres[n] == payloads[q][n - displ[q]]
    ensures vres[..] == Image(bounded, h, w, maxIter)
  {
    forall n | 0 <= n < h * w
      ensures vres[n] == Image(bounded, h, w, maxIter)[n]
    {
      InScaledRange(n, w, 0, h);
      var q := RowOwner(h, p, n / w);
      CellInExactlyOneBlock(h, w, p, n, q);
      assert InBlock(count, displ, q, n);
      RankBlocksAt(bounded, h, w, maxIter, p, p, q);
      BlockCellIsImageCell(bounded, h, w, maxIter, p, q, n);
    }
  }

  /**
   * Every rank's compute phase, one rank after the other: `payloads[q]` is what rank q
   * hands to `MPI_Gatherv` and `flops[q]` its operation counter, which `MPI_Gather`
   * collects into `flopsxproc`.
   */
  method ComputeAll(bounded: Oracle, h: nat, w: int, maxIter: int, numprocs: nat,
                    rows: array<int>, startrow: array<int>, count: array<int>)
    returns (payloads: seq<seq<int>>, flops: seq<int>)
    requires w >= 1 && maxIter >= 1 && numprocs >= 1
    requires rows.Length == startrow.Length == count.Length == numprocs
    requires forall q :: 0 <= q < numprocs ==>
      rows[q] == Rows(h, numprocs, q) && startrow[q] == StartRow(h, numprocs, q) && count[q] == Count(h, w, numprocs, q)
    ensures payloads == RankBlocks(bounded, h, w, maxIter, numprocs, numprocs)
    ensures flops == RanksOps(bounded, h, w, maxIter, numprocs, numprocs)
  {
    payloads, flops := [], [];
    for rank := 0 to numprocs
      invariant payloads == RankBlocks(bounded, h, w, maxIter, numprocs, rank)
      invariant flops == RanksOps(bounded, h, w, maxIter, numprocs, rank)
    {
      var payload, f := Worker(bounded, h, w, maxIter, numprocs, rank, rows, startrow, count);
      payloads := payloads + [payload];
      flops := flops + [f];
    }
  }

  /**
   * The run: partition, every rank's compute loop, and the gather of the blocks at the
   * coordinator, the blocks placed in the order `order`. The image is the same for every
   * number of workers and every order; `flopsxproc[q]` is rank q's operation count.
   */
  method Run(h: nat, w: int, maxIter: int, numprocs: nat, bounded: Oracle, order: seq<int>)
    returns (vres: array<int>, flopsxproc: seq<int>)
    requires w >= 1 && maxIter >= 1 && numprocs >= 1
    requires IsPermutation(order, numprocs)
    ensures fresh(vres)
    ensures vres[..] == Image(bounded, h, w, maxIter)
    ensures flopsxproc == RanksOps(bounded, h, w, maxIter, numprocs, numprocs)
  {
    var rows, startrow, count, displ := FillPartition(h, w, numprocs);
    vres := new int[h * w];
    var payloads;
    payloads, flopsxproc := ComputeAll(bounded, h, w, maxIter, numprocs, rows, startrow, count);
    LayoutFitsImage(h, w, numprocs);
    forall q | 0 <= q < numprocs
      ensures |payloads[q]| == count[q]
    {
      RankBlocksAt(bounded, h, w, maxIter, numprocs, numprocs, q);
    }
    Gatherv(vres, payloads, count, displ, order);
    PlacedBlocksFormImage(bounded, h, w, maxIter, numprocs, payloads, count, displ, vres);
  }

  /** `main` with its build-time configuration: a 1024 x 1024 image, at most 1000 steps. */
  method RunDefault(numprocs: nat, bounded: Oracle, order: seq<int>) returns (vres: array<int>, flopsxproc: seq<int>)
    requires numprocs >= 1
    requires IsPermutation(order, numprocs)
    ensures fresh(vres) && vres[..] == Image(bounded, YResn, XResn, MaxIterations)
    ensures flopsxproc == RanksOps(bounded, YResn, XResn, MaxIterations, numprocs, numprocs)
  {
    vres, flopsxproc := Run(YResn, XResn, MaxIterations, numprocs, bounded, order);
  }
}
