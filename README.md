# Mandelbrot row partition, pixel loop and gather

A Dafny model of `mandel.c`, an MPI program that renders the Mandelbrot set. The program
splits the image's `Y_RESN` rows across `numprocs` workers. Each worker runs
`mandelbrot(i, j, &flops)` on every pixel of its own rows and stores the iteration count in
a local block `res_parcial`. A count that reached the cap `maxIterations` is stored as 0.
`MPI_Gatherv` then assembles the blocks into the coordinator's buffer `vres`. The per-rank
operation counters are collected with `MPI_Gather`.

The model is imperative where the program is:

- `Partition.FillPartition` fills the four arrays `rows`, `startrow`, `count` and `displ`
  in a loop.
- `Compute.ComputeLocalBlock` and `Compute.ComputeRow` are the nested pixel loop writing
  into an `array<int>`.
- `Escape.Mandelbrot` is the do-while loop over `k` and the operation counter.
- `Gather.Gatherv` copies each rank's block into `vres`, one rank after another.

Each of these methods is proved against a specification function, and properties of
those functions are proved as lemmas:

- `Rows` / `StartRow` / `Count` / `Displ` specify the partition.
- `Iterations` / `Ops` specify `mandelbrot` and its operation count.
- `Pixel` / `LocalBlock` / `RowOps` / `BlockOps` specify the pixel loop.
- `Image` specifies the assembled buffer.

The image dimensions and the iteration cap are parameters `h`, `w` and `maxIter`.
`Mandel.RunDefault` instantiates them with the build-time values 1024, 1024 and 1000
(`Mandel.YResn`, `Mandel.XResn`, `Mandel.MaxIterations`).

The floating-point part of `mandelbrot` has no integer content. That is the coordinate
mapping and the update of `z`. It is replaced by an oracle `bounded(i, j, s)`, which holds
when |z|² is still below 4 after s steps for pixel (i, j). Everything else is exact:
- which step stops the loop
- the counter
- the remap
- the indexing of `res_parcial` and `vres`

The headline result is `Mandel.Run`: after the partition, every rank's compute loop and
the gather, `vres[i*w + j]` holds the remapped `mandelbrot(i, j)` for every pixel. The
result is the same whatever the number of workers and whatever the order in which blocks
are placed. `Mandel.Run` ensures `vres[..] == Image(bounded, h, w, maxIter)`, and
`Image` mentions neither `numprocs` nor the order.

Points where the model departs from the code, or where the code and the design disagree:

- The code is followed in sizing each worker's local buffer for `h / numprocs + 1` rows
  (mandel.c:82). It is not sized as exactly `count[rank]`; the payload handed to the
  gather is the first `count[rank]` ints of that buffer.
- The code is not followed at worker 0 when `h % numprocs == 0`. There the code reads
  `startrow[-1]`; the model sets `startrow[0] = 0`, which is what the design intends
  (see Findings).
- The code does not check its configuration. The model accepts any `h >= 0` and asks
  only what MPI guarantees: `numprocs >= 1`, plus `w >= 1` and `maxIter >= 1`, which the
  program's constants satisfy.

## Model

| member | source | states |
|---|---|---|
| Partition.FillPartition | mandel.c:92-102 | the loop fills `rows`, `startrow`, `count`, `displ` (fresh, length `numprocs`) so that entry i equals `Rows`, `StartRow`, `Count`, `Displ` of i for every worker, including worker 0 when `h % numprocs == 0` |
| Partition.FillEntry | mandel.c:93-101 | one iteration sets entry i of all four arrays from entry i - 1, with the low-rank branch `i*rows[i]` and the guarded running sum, and leaves every other entry unchanged |
| Partition.StartRowClosedForm | mandel.c:92-98 | the accumulated start row of worker i equals i*(h/p) + min(i, h%p) |
| Partition.LowRankStart | mandel.c:93-95 | for i < h % p the closed form `startrow[i] = i*rows[i]` equals the running sum of the earlier workers' rows |
| Partition.PartitionCovers | mandel.c:92-102 | the rows of all p workers add up to h: the running start reaches h after the last worker |
| Partition.StartRowOrdered | mandel.c:97-98 | blocks come in rank order: for a < b, worker a's block ends no later than worker b's begins |
| Partition.StartRowIncreasing | mandel.c:92-98 | when p <= h every worker gets at least one row and start rows strictly increase |
| Partition.BlockInImage | mandel.c:92-102 | no worker's block reaches past row h |
| Partition.RowsBalanced | mandel.c:93-97 | a worker gets h/p + 1 rows exactly when its rank is below h % p and h/p otherwise; two workers differ by at most one row; no worker exceeds h/p + 1 rows, the row dimension of `res_parcial` |
| Partition.MoreWorkersThanRows | mandel.c:93-98 | with p > h the first h workers get one row each and the rest zero rows, and worker i starts at row min(i, h) |
| Partition.SingleWorker | mandel.c:92-102 | one worker gets all h rows starting at row 0 |
| Partition.OwnerFrom | mandel.c:92-102 | searching upward from a worker that starts at or before a row finds a worker whose block holds the row |
| Partition.RowOwner | mandel.c:92-102 | every row 0..h-1 lies in the block of some worker below p: the blocks cover the image |
| Partition.RowOwnerUnique | mandel.c:92-102 | the worker whose block holds a row is unique: the blocks do not overlap |
| Partition.GatherLayout | mandel.c:100-101 | `displ[i] + count[i] == displ[i+1]`, every block ends within h*w, and the last one ends at exactly h*w, the size of `vres` |
| Partition.BlocksDisjoint | mandel.c:100-101 | the element ranges `[displ[i], displ[i] + count[i])` of two distinct workers do not overlap |
| Partition.StartRowAsWritten | mandel.c:93-98 | the source's start-row expression, given correct entries 0..i-1, reads outside the arrays exactly when i == 0 and h % p == 0, and otherwise yields `StartRow` |
| Partition.DefaultRowsReadBeforeFirst | mandel.c:92-98 | with 1024 rows and 4 workers, worker 0 takes the branch that reads index -1 |
| Escape.StopFrom | mandel.c:54-62 | from a step s that has not stopped the loop, the stopping step k lies in [s, maxIter], stops the loop, and no step in [s, k) does |
| Escape.IterationsCharacterized | mandel.c:52-64 | `mandelbrot` returns a value in [1, maxIter], and an integer k is that value exactly when every step before k kept \|z\|² below 4 and, if k is below the cap, step k did not |
| Escape.EscapesIff | mandel.c:62 | the result is below the cap exactly when some step before the cap has \|z\|² >= 4 |
| Escape.NeverEscapes | mandel.c:62 | a point whose \|z\|² stays below 4 at every step returns the cap |
| Escape.EscapesAtFirstStep | mandel.c:54-62 | a point whose first step already has \|z\|² >= 4 returns 1, because the body of the do-while always runs once |
| Escape.Mandelbrot | mandel.c:42-65 | the do-while returns k in [1, maxIter] with \|z\|² below 4 at every earlier step and not below 4 at step k when k is below the cap; k equals `Iterations`, and the counter grows by exactly 4 + 10k |
| Compute.PixelRange | mandel.c:130-131 | the stored value lies in [0, maxIter - 1]; it is non-zero exactly when the point escaped before the cap, and then it is the escape step |
| Compute.LocalBlockAt | mandel.c:124-131 | cell (r, j) of a worker's block, flat index r*w + j, holds the remapped count of global row start + r, column j |
| Compute.RowOpsBounds | mandel.c:126-128 | the calls for j columns add between 14 and 4 + 10*maxIter operations each |
| Compute.BlockOpsBounds | mandel.c:124-133 | a block of r rows of w pixels adds between 14 and 4 + 10*maxIter operations per pixel |
| Compute.ComputeLocalBlock | mandel.c:124-133 | the first nrows*w cells of `res_parcial` become the worker's block of remapped counts, every later cell is unchanged, and the counter grows by the operations of every call in the block |
| Compute.ComputeRow | mandel.c:126-132 | the column loop of row i extends the filled prefix of `res_parcial` by the w cells of row i - start, leaves later cells unchanged, and adds the row's operations to the counter |
| Compute.ComputePixel | mandel.c:128-131 | one call of `mandelbrot`, then 0 or k stored at cell (i - start, j) and nowhere else; the counter grows by that call's operations |
| Gather.Deposit | mandel.c:143 | one rank's payload is copied to `vres` from its displacement onward, and every other cell of `vres` is unchanged |
| Gather.Gatherv | mandel.c:143 | with disjoint in-bounds blocks, placing the ranks in any permutation order leaves every block holding its own rank's payload and every cell outside all blocks unchanged |
| Mandel.ImageAt | mandel.c:116-117 | row i, column j of the image, reached through `res[i] = vres + i*X_RESN`, is flat index i*w + j and holds pixel (i, j) |
| Mandel.CellInExactlyOneBlock | mandel.c:100-101 | every cell of `vres` lies in the block of exactly one worker, the one owning its row, so the gather writes each cell once |
| Mandel.BlockCellIsImageCell | mandel.c:124-143 | the cell of worker q's block that the gather places at index n of `vres` is the image's pixel at n |
| Mandel.BlockInRowsOfImage | mandel.c:124-131 | cell e of a block of rows starting at row s is the image cell s*w + e |
| Mandel.RankOpsBounds | mandel.c:124-133 | each pixel of a rank's block adds between 14 and 4 + 10*maxIter to that rank's `flops` |
| Mandel.LayoutFitsImage | mandel.c:100-110 | every rank's block fits in the h*w ints of `vres`, and blocks of distinct ranks are disjoint |
| Mandel.Worker | mandel.c:124-133 | a rank, with a buffer sized for h/numprocs + 1 rows, hands the gather exactly its block of remapped counts and ends with its operation count |
| Mandel.PlacedBlocksFormImage | mandel.c:92-143 | once every rank's payload sits at its displacement in `vres`, `vres` is the image, for any number of workers |
| Mandel.ComputeAll | mandel.c:124-148 | every rank's payload is its block and every rank's counter is its operation count, gathered in rank order as `flopsxproc` |
| Mandel.Run | mandel.c:92-148 | after partition, compute and gather in any placement order, `vres` is the image of remapped counts whatever the number of workers, and `flopsxproc[q]` is rank q's operation count |
| Mandel.RunDefault | mandel.c:15-29 | with the build-time 1024 x 1024 image and cap 1000, the same holds for any number of workers |

## Left out

- The floating-point recurrence and coordinate mapping (`Compl`, `c.real`, `c.imag`, the update of `z`, `lengthsq`) are left out because they are floating-point numerics. Only the outcome of the test `lengthsq < 4.0` at each step enters the model, as the oracle `bounded`.
- MPI process management (`MPI_Init`, `MPI_Comm_size`, `MPI_Comm_rank`, `MPI_Barrier`, `MPI_Finalize`) is left out because it is concurrency and a foreign library. The ranks run one after another, and `numprocs` and the rank are parameters.
- Concurrency in `MPI_Gatherv` is left out. Only its placement semantics are modelled, as one sequential copy per rank in an arbitrary permutation order. Which process holds which buffer is not modelled: the coordinator's `vres` and all ranks' payloads live side by side.
- The `MPI_Gather` of the per-rank counters is modelled as the sequence `flopsxproc` of their values, with no communication.
- Timing (`gettimeofday`, `get_seconds`) and the `(PERF)` reports on standard error are left out because they are I/O over floats.
- Printing the image is left out because it is I/O.
- `free(vres)` is left out because Dafny memory is garbage-collected.
- The failure path of `malloc` for `vres` (mandel.c:110-115) is left out because allocation with `new` cannot fail in Dafny, so the early return is never taken.
- Escape.Mandelbrot: `*flops` is a C `int` but is modelled as an unbounded integer, so 32-bit overflow of the counter is not modelled. The same holds for the counters in `Compute` and `Mandel`.
- Compute.ComputeLocalBlock: `res_parcial` is a two-dimensional C array. It is modelled as a flat row-major `array<int>` of (h/numprocs + 1)*w ints, which is its layout in memory and the form in which `MPI_Gatherv` reads it.
- Only the coordinator allocates `vres`. In the model, `Mandel.Run` allocates it once for the whole run.

## Findings

| source | as written | input that shows it | evidently intended | confidence | as-written member | corrected member |
|---|---|---|---|---|---|---|
| mandel.c:97-98 | worker 0 takes the `else` branch whenever `Y_RESN % numprocs == 0`, and `startrow[i-1] + rows[i-1]` then reads `startrow[-1]` and `rows[-1]`, outside both arrays | `Y_RESN = 1024`, `numprocs = 4`, i = 0 | `startrow[0] = 0`, the first block starting at row 0 | not executed | Partition.StartRowAsWritten, Partition.DefaultRowsReadBeforeFirst | Partition.FillPartition |
